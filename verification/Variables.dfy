/** Variables of the configuration: the symbol table `set` maintains and the substitution
    `do_var_replacement` performs with it. */
module Variables {
  import opened Options
  import opened StableSort
  import opened Tokens

  datatype Symbol = Symbol(name: string, value: string)

  /** Every name starts with a dollar sign: `set` refuses others. */
  type Variable = v: Symbol | v.name != "" && v.name[0] == '$' witness Symbol("$", "")

  // ---- substitution ----

  /** The first entry of the table whose name the text starts with. */
  function FirstMatch(vars: seq<Variable>, s: string): (r: Option<Variable>)
    ensures r.Some? ==> r.value in vars && r.value.name <= s
  {
    if vars == [] then None
    else if vars[0].name <= s then Some(vars[0])
    else FirstMatch(vars[1..], s)
  }

  /** The look-back: a dollar sign behind `done` counts as escaped if one backslash, but not two,
      stands directly before it. */
  predicate Escaped(done: string) {
    |done| >= 1 && done[|done| - 1] == '\\' && !(|done| >= 2 && done[|done| - 2] == '\\')
  }

  /** The substitution as one pass from left to right. `done` is final, `rest` not looked at yet;
      text once put into `done` is never read again but for its last two characters. */
  function Expand(vars: seq<Variable>, done: string, rest: string): string
    decreases |rest|
  {
    if rest == "" then done
    else if rest[0] != '$' || Escaped(done) then Expand(vars, done + [rest[0]], rest[1..])
    else if |rest| > 1 && rest[1] == '$' then Expand(vars, done + "$", rest[2..])
    else match FirstMatch(vars, rest)
      case None => Expand(vars, done + "$", rest[1..])
      case Some(v) => Expand(vars, done + v.value, rest[|v.name|..])
  }

  /** The string at `find` in the middle of being rewritten to `out`. */
  ghost function Outcome(vars: seq<Variable>, str: string, find: nat): string
    requires find <= |str|
  {
    Expand(vars, str[..find], str[find..])
  }

  lemma {:induction false} SkipToDollar(vars: seq<Variable>, str: string, find: nat, next: nat)
    requires find <= next <= |str| && forall i :: find <= i < next ==> str[i] != '$'
    ensures Outcome(vars, str, find) == Outcome(vars, str, next)
    decreases next - find
  {
    if find < next {
      CopyOne(vars, str, find);
      SkipToDollar(vars, str, find + 1, next);
    }
  }

  lemma CopyOne(vars: seq<Variable>, str: string, find: nat)
    requires find < |str| && (str[find] != '$' || Escaped(str[..find]))
    ensures Outcome(vars, str, find) == Outcome(vars, str, find + 1)
  {
    assert str[find..][1..] == str[find + 1..] && str[..find] + [str[find]] == str[..find + 1];
  }

  lemma Replace(vars: seq<Variable>, str: string, find: nat, cut: nat, value: string)
    requires find < |str| && find + cut <= |str| && str[find] == '$' && !Escaped(str[..find])
    requires if find + 1 < |str| && str[find + 1] == '$' then cut == 2 && value == "$"
             else match FirstMatch(vars, str[find..])
               case None => cut == 1 && value == "$"
               case Some(v) => cut == |v.name| && value == v.value
    ensures Outcome(vars, str, find)
         == Outcome(vars, str[..find] + value + str[find + cut..], find + |value|)
  {
    var next := str[..find] + value + str[find + cut..];
    assert next[..find + |value|] == str[..find] + value && next[find + |value|..] == str[find + cut..];
    assert str[find..][cut..] == str[find + cut..];
  }

  /** `strchr` from `find` on: the length of the string if there is none. */
  method FindDollar(str: string, find: nat) returns (next: nat)
    requires find <= |str|
    ensures find <= next <= |str| && (next < |str| ==> str[next] == '$')
    ensures forall i :: find <= i < next ==> str[i] != '$'
  {
    next := find;
    while next < |str| && str[next] != '$'
      invariant find <= next <= |str| && forall i :: find <= i < next ==> str[i] != '$'
    {
      next := next + 1;
    }
  }

  /** `do_var_replacement`: rewrites the string in place, from one dollar sign to the next. */
  method DoVarReplacement(vars: seq<Variable>, text: string) returns (str: string)
    ensures str == Expand(vars, "", text)
  {
    str := text;
    assert text[..0] == "" && text[0..] == text;
    var find := FindDollar(str, 0);
    SkipToDollar(vars, str, 0, find);
    while find < |str|
      invariant 0 <= find <= |str| && (find < |str| ==> str[find] == '$')
      invariant Outcome(vars, str, find) == Expand(vars, "", text)
      decreases |str| - find
    {
      find, str := AtDollar(vars, str, find);
      var next := FindDollar(str, find);
      SkipToDollar(vars, str, find, next);
      find := next;
    }
    assert str[find..] == "" && str[..find] == str;
  }

  lemma LookBack(str: string, find: nat)
    requires find <= |str|
    ensures Escaped(str[..find])
       <==> find > 0 && str[find - 1] == '\\' && (find == 1 || !(find > 1 && str[find - 2] == '\\'))
  {
  }

  lemma DoubleDollar(vars: seq<Variable>, str: string, find: nat)
    requires find + 1 < |str| && str[find] == '$' && str[find + 1] == '$' && !Escaped(str[..find])
    ensures Outcome(vars, str[..find] + str[find + 1..], find + 1) == Outcome(vars, str, find)
  {
    Replace(vars, str, find, 2, "$");
    assert str[..find] + str[find + 1..] == str[..find] + "$" + str[find + 2..];
  }

  lemma NotDefined(vars: seq<Variable>, str: string, find: nat)
    requires find < |str| && str[find] == '$' && !Escaped(str[..find])
    requires find + 1 == |str| || str[find + 1] != '$'
    requires FirstMatch(vars, str[find..]).None?
    ensures Outcome(vars, str, find + 1) == Outcome(vars, str, find)
  {
    Replace(vars, str, find, 1, "$");
    assert str[..find] + "$" + str[find + 1..] == str;
  }

  /** The body of the loop, at a dollar sign. */
  method AtDollar(vars: seq<Variable>, was: string, at: nat) returns (find: nat, str: string)
    requires at < |was| && was[at] == '$'
    ensures find <= |str| && |str| - find < |was| - at
    ensures Outcome(vars, str, find) == Outcome(vars, was, at)
  {
    find, str := at, was;
    LookBack(str, find);
    // skip if escaped
    if find > 0 && str[find - 1] == '\\' {
      if find == 1 || !(find > 1 && str[find - 2] == '\\') {
        CopyOne(vars, str, find);
        find := find + 1;
        return;
      }
    }
    // unescape double $ and move on
    if find + 1 < |str| && str[find + 1] == '$' {
      DoubleDollar(vars, str, find);
      str := str[..find] + str[find + 1..];
      find := find + 1;
    } else {
      find, str := InsertValue(vars, was, at);
    }
  }

  /** Inserts the value of the variable at a dollar sign, or moves on. */
  method InsertValue(vars: seq<Variable>, was: string, at: nat) returns (find: nat, str: string)
    requires at < |was| && was[at] == '$' && !Escaped(was[..at])
    requires at + 1 == |was| || was[at + 1] != '$'
    ensures find <= |str| && |str| - find < |was| - at
    ensures Outcome(vars, str, find) == Outcome(vars, was, at)
  {
    find, str := at, was;
    var i := FindMatching(vars, str[find..]);
    if i < |vars| {
      Replace(vars, str, find, |vars[i].name|, vars[i].value);
      str := str[..find] + vars[i].value + str[find + |vars[i].name|..];
      find := find + |vars[i].value|;
    } else {
      NotDefined(vars, str, find);
      find := find + 1;
    }
  }

  /** The search for a matching variable. */
  method FindMatching(vars: seq<Variable>, s: string) returns (i: nat)
    ensures i <= |vars| && FirstMatch(vars, s) == if i < |vars| then Some(vars[i]) else None
    ensures i < |vars| ==> vars[i].name <= s
  {
    i := 0;
    while i < |vars| && !(vars[i].name <= s)
      invariant 0 <= i <= |vars| && FirstMatch(vars[i..], s) == FirstMatch(vars, s)
    {
      i := i + 1;
    }
  }

  // ---- the symbol table ----

  ghost predicate DistinctNames(vars: seq<Variable>) {
    forall i, j :: 0 <= i < j < |vars| ==> vars[i].name != vars[j].name
  }

  ghost predicate LongestFirst(vars: seq<Variable>) {
    forall i, j :: 0 <= i < j < |vars| ==> |vars[i].name| >= |vars[j].name|
  }

  /** What every table built by `set` looks like: no name twice, longer names first. */
  ghost predicate Table(vars: seq<Variable>) {
    DistinctNames(vars) && LongestFirst(vars)
  }

  /** The table holds exactly the entries of a finite map. */
  ghost predicate Represents(vars: seq<Variable>, m: map<string, string>) {
    && (forall v :: v in vars ==> v.name in m && m[v.name] == v.value)
    && (forall name :: name in m ==> exists v :: v in vars && v.name == name)
  }

  /** `compare_set_qsort`. */
  function CompareSet(l: Variable, r: Variable): int {
    |r.name| - |l.name|
  }

  /** `list_qsort`. All that is known of the result is that it is an ordered permutation; names of
      equal length may come in any order. */
  method SortSymbols(vars: seq<Variable>) returns (sorted: seq<Variable>)
    ensures multiset(sorted) == multiset(vars) && LongestFirst(sorted)
  {
    assert TotalPreorder(CompareSet);
    MergeSortStable(CompareSet, vars);
    sorted := MergeSort(CompareSet, vars);
    assert forall i, j :: 0 <= i < j < |sorted| ==> Leq(CompareSet, sorted[i], sorted[j]);
  }

  /** One successful `set`, with all the freedom sorting has. */
  ghost predicate SetStep(vars: seq<Variable>, v: Variable, next: seq<Variable>) {
    if exists i :: 0 <= i < |vars| && vars[i].name == v.name then
      exists i :: 0 <= i < |vars| && vars[i].name == v.name && next == vars[i := v]
    else multiset(next) == multiset(vars + [v]) && LongestFirst(next)
  }

  datatype Status = Success | Invalid

  class Config {
    var symbols: seq<Variable>

    constructor ()
      ensures symbols == []
    {
      symbols := [];
    }

    /** `cmd_set`. */
    method Set(argv: seq<string>) returns (status: Status)
      requires |argv| >= 2
      modifies this
      ensures status == Success <==> argv[0] != "" && argv[0][0] == '$'
      ensures status == Invalid ==> symbols == old(symbols)
      ensures status == Success ==> SetStep(old(symbols), Symbol(argv[0], Join(argv[1..])), symbols)
    {
      if argv[0] == "" || argv[0][0] != '$' {
        return Invalid;
      }
      var v: Variable := Symbol(argv[0], Join(argv[1..]));
      var i := 0;
      while i < |symbols|
        invariant 0 <= i <= |symbols| && forall k :: 0 <= k < i ==> symbols[k].name != argv[0]
      {
        if symbols[i].name == argv[0] {
          break;
        }
        i := i + 1;
      }
      if i < |symbols| {
        symbols := symbols[i := v];
      } else {
        symbols := SortSymbols(symbols + [v]);
      }
      return Success;
    }
  }

  lemma AtMostOnce(vars: seq<Variable>, v: Variable)
    requires DistinctNames(vars)
    ensures multiset(vars)[v] <= 1
  {
    if v in vars {
      var k :| 0 <= k < |vars| && vars[k] == v;
      assert v !in vars[..k] && v !in vars[k + 1..];
      assert vars == vars[..k] + [v] + vars[k + 1..];
    }
  }

  lemma Twice(vars: seq<Variable>, i: nat, j: nat)
    requires i < j < |vars| && vars[i] == vars[j]
    ensures multiset(vars)[vars[i]] >= 2
  {
    assert vars == vars[..i] + [vars[i]] + vars[i + 1..j] + [vars[j]] + vars[j + 1..];
  }

  lemma PermutedNames(a: seq<Variable>, b: seq<Variable>)
    requires multiset(a) == multiset(b) && DistinctNames(a)
    ensures DistinctNames(b) && forall v :: v in b <==> v in a
  {
    forall v
      ensures v in b <==> v in a
    {
      assert v in b <==> v in multiset(b);
      assert v in a <==> v in multiset(a);
    }
    forall i, j | 0 <= i < j < |b|
      ensures b[i].name != b[j].name
    {
      assert b[i] in a && b[j] in a;
      AtMostOnce(a, b[i]);
      if b[i] == b[j] { Twice(b, i, j); }
    }
  }

  lemma ReplacedKeepsTable(vars: seq<Variable>, v: Variable, i: nat)
    requires Table(vars) && i < |vars| && vars[i].name == v.name
    ensures Table(vars[i := v])
    ensures forall w :: w in vars[i := v] <==> w == v || (w in vars && w.name != v.name)
  {
    var next := vars[i := v];
    assert next[i] == v;
    forall w
      ensures w in next <==> w == v || (w in vars && w.name != v.name)
    {
      if w in vars && w.name != v.name {
        var k :| 0 <= k < |vars| && vars[k] == w;
        assert next[k] == w;
      }
    }
  }

  /** `set` keeps the table in order and changes the one entry. */
  lemma SetStepKeepsTable(vars: seq<Variable>, v: Variable, next: seq<Variable>)
    requires Table(vars) && SetStep(vars, v, next)
    ensures Table(next) && forall w :: w in next <==> w == v || (w in vars && w.name != v.name)
  {
    if exists i :: 0 <= i < |vars| && vars[i].name == v.name {
      var i :| 0 <= i < |vars| && vars[i].name == v.name && next == vars[i := v];
      ReplacedKeepsTable(vars, v, i);
    } else {
      PermutedNames(vars + [v], next);
    }
  }

  /** `set` is an update of the finite map. */
  lemma SetStepUpdatesMap(vars: seq<Variable>, v: Variable, next: seq<Variable>, m: map<string, string>)
    requires Table(vars) && SetStep(vars, v, next) && Represents(vars, m)
    ensures Represents(next, m[v.name := v.value])
  {
    hide SetStep, Table;
    SetStepKeepsTable(vars, v, next);
    assert v in next;
    forall name | name in m && name != v.name
      ensures exists w :: w in next && w.name == name
    {
      var w :| w in vars && w.name == name;
      assert w in next;
    }
  }

  /** A run of `set` commands and the tables it goes through. */
  ghost predicate Run(tables: seq<seq<Variable>>, sets: seq<Variable>) {
    && |tables| == |sets| + 1 && tables[0] == []
    && forall i :: 0 <= i < |sets| ==> SetStep(tables[i], sets[i], tables[i + 1])
  }

  /** The finite map the commands so far define: the last value set for each name. */
  ghost function Defined(sets: seq<Variable>): map<string, string> {
    if sets == [] then map[] else Defined(sets[..|sets| - 1])[sets[|sets| - 1].name := sets[|sets| - 1].value]
  }

  /** In every run the table stays in order and holds exactly the values set last. */
  lemma {:induction false} RunDefines(tables: seq<seq<Variable>>, sets: seq<Variable>, i: nat)
    requires Run(tables, sets) && i < |tables|
    ensures Table(tables[i]) && Represents(tables[i], Defined(sets[..i]))
  {
    if i > 0 {
      RunDefines(tables, sets, i - 1);
      SetStepKeepsTable(tables[i - 1], sets[i - 1], tables[i]);
      SetStepUpdatesMap(tables[i - 1], sets[i - 1], tables[i], Defined(sets[..i - 1]));
      assert sets[..i][..i - 1] == sets[..i - 1];
    }
  }

  /** The longest defined name the text starts with, as a property of the map alone. */
  ghost predicate LongestDefined(defined: map<string, string>, s: string, name: string) {
    name in defined && name <= s && forall other :: other in defined && other <= s ==> |other| <= |name|
  }

  lemma {:induction false} FirstMatchIsLongest(vars: seq<Variable>, s: string)
    requires LongestFirst(vars)
    ensures FirstMatch(vars, s) == None ==> forall v :: v in vars ==> !(v.name <= s)
    ensures FirstMatch(vars, s).Some? ==>
      forall v :: v in vars && v.name <= s ==> |v.name| <= |FirstMatch(vars, s).value.name|
  {
    if vars != [] && !(vars[0].name <= s) {
      FirstMatchIsLongest(vars[1..], s);
    } else if vars != [] {
      forall v | v in vars
        ensures |v.name| <= |vars[0].name|
      {
        var k :| 0 <= k < |vars| && vars[k] == v;
        assert k == 0 || |vars[0].name| >= |vars[k].name|;
      }
    }
  }

  /** At an unescaped dollar sign the first match in the table is the one longest name the map
      defines there, with the value it was given last. */
  lemma MatchIsLongestDefined(vars: seq<Variable>, m: map<string, string>, s: string)
    requires Table(vars) && Represents(vars, m)
    ensures FirstMatch(vars, s) == None ==> forall name :: name in m ==> !(name <= s)
    ensures FirstMatch(vars, s).Some? ==>
      var v := FirstMatch(vars, s).value;
      v.name in m && m[v.name] == v.value && forall name :: LongestDefined(m, s, name) <==> name == v.name
  {
    FirstMatchIsLongest(vars, s);
    if FirstMatch(vars, s).Some? {
      var v := FirstMatch(vars, s).value;
      forall name
        ensures LongestDefined(m, s, name) <==> name == v.name
      {
        if LongestDefined(m, s, name) {
          assert |v.name| <= |name|;
          assert name == s[..|name|] && v.name == s[..|v.name|];
        }
      }
    }
  }

  /** Whatever order sorting gives names of equal length, the substitution is the same: it depends
      on the map only. */
  lemma {:induction false} ExpandDependsOnMap(a: seq<Variable>, b: seq<Variable>, m: map<string, string>,
                                              done: string, rest: string)
    requires Table(a) && Table(b) && Represents(a, m) && Represents(b, m)
    ensures Expand(a, done, rest) == Expand(b, done, rest)
    decreases |rest|
  {
    if rest == "" {
    } else if rest[0] != '$' || Escaped(done) {
      ExpandDependsOnMap(a, b, m, done + [rest[0]], rest[1..]);
    } else if |rest| > 1 && rest[1] == '$' {
      ExpandDependsOnMap(a, b, m, done + "$", rest[2..]);
    } else {
      SameMatch(a, b, m, rest);
      match FirstMatch(a, rest)
      case None => ExpandDependsOnMap(a, b, m, done + "$", rest[1..]);
      case Some(v) => ExpandDependsOnMap(a, b, m, done + v.value, rest[|v.name|..]);
    }
  }

  lemma SameMatch(a: seq<Variable>, b: seq<Variable>, m: map<string, string>, s: string)
    requires Table(a) && Table(b) && Represents(a, m) && Represents(b, m)
    ensures FirstMatch(a, s) == FirstMatch(b, s)
  {
    MatchIsLongestDefined(a, m, s);
    MatchIsLongestDefined(b, m, s);
    var p, q := FirstMatch(a, s), FirstMatch(b, s);
    if p.Some? && q.Some? {
      assert LongestDefined(m, s, q.value.name);
    }
  }

  // ---- substituted text is not read again ----

  /** Text without dollar signs is copied. */
  lemma {:induction false} ExpandPlain(vars: seq<Variable>, done: string, text: string, rest: string)
    requires '$' !in text
    ensures Expand(vars, done, text + rest) == Expand(vars, done + text, rest)
    decreases |text|
  {
    if text == "" {
      assert text + rest == rest && done + text == done;
    } else {
      assert (text + rest)[1..] == text[1..] + rest && done + [text[0]] + text[1..] == done + text;
      ExpandPlain(vars, done + [text[0]], text[1..], rest);
    }
  }

  /** What is emitted already does not change what becomes of the rest, unless it ends in a
      backslash. */
  lemma {:induction false} ExpandBehind(vars: seq<Variable>, done: string, more: string, rest: string)
    requires done == "" || done[|done| - 1] != '\\'
    ensures Expand(vars, done + more, rest) == done + Expand(vars, more, rest)
    decreases |rest|
  {
    if rest != "" {
      assert Escaped(done + more) == Escaped(more);
      assert forall t: string :: (done + more) + t == done + (more + t);
      if rest[0] != '$' || Escaped(more) {
        ExpandBehind(vars, done, more + [rest[0]], rest[1..]);
      } else if |rest| > 1 && rest[1] == '$' {
        ExpandBehind(vars, done, more + "$", rest[2..]);
      } else {
        match FirstMatch(vars, rest)
        case None => ExpandBehind(vars, done, more + "$", rest[1..]);
        case Some(v) => ExpandBehind(vars, done, more + v.value, rest[|v.name|..]);
      }
    }
  }

  /** Exactly when the text emitted so far ends in a backslash can it affect the substitution of what
      follows. */
  lemma LookBackIff(done: string)
    ensures (forall vars, rest :: Expand(vars, done, rest) == done + Expand(vars, "", rest))
       <==> (done == "" || done[|done| - 1] != '\\')
  {
    if done == "" || done[|done| - 1] != '\\' {
      forall vars, rest
        ensures Expand(vars, done, rest) == done + Expand(vars, "", rest)
      {
        ExpandBehind(vars, done, "", rest);
        assert done + "" == done;
      }
    } else {
      var vars, rest := BackslashSeen(done);
      assert |Expand(vars, done, rest)| == |done| + 2 && |Expand(vars, "", rest)| == 3;
    }
  }

  /** The input that shows it: a backslash and two dollar signs. Behind a backslash the pair counts
      as an escaped dollar sign, on fresh text it does not. */
  lemma BackslashSeen(done: string) returns (vars: seq<Variable>, rest: string)
    requires done != "" && done[|done| - 1] == '\\'
    ensures vars == [] && rest == "\\$$"
    ensures Expand(vars, done, rest) == done + ['\\'] + "$" && Expand(vars, "", rest) == rest
  {
    vars, rest := [], "\\$$";
    var pair, one, none := rest[1..], rest[2..], rest[3..];
    var slash := [] + ['\\'];
    assert rest == ['\\'] + pair && pair == ['$'] + one && one == ['$'] + none && none == [];
    CopyChar(vars, done, '\\', pair);
    ExpandPair(vars, done + ['\\'], none);
    CopyChar(vars, [], '\\', pair);
    CopyChar(vars, slash, '$', one);
    DollarAlone(vars, slash + ['$'], none);
    assert slash + ['$'] + ['$'] == rest;
  }

  lemma CopyChar(vars: seq<Variable>, done: string, c: char, rest: string)
    requires c != '$' || Escaped(done)
    ensures Expand(vars, done, [c] + rest) == Expand(vars, done + [c], rest)
  {
    assert ([c] + rest)[1..] == rest;
  }

  lemma ExpandPair(vars: seq<Variable>, done: string, rest: string)
    requires !Escaped(done)
    ensures Expand(vars, done, ['$', '$'] + rest) == Expand(vars, done + "$", rest)
  {
    assert (['$', '$'] + rest)[2..] == rest;
  }

  lemma DollarAlone(vars: seq<Variable>, done: string, rest: string)
    requires !Escaped(done) && rest == [] && vars == []
    ensures Expand(vars, done, ['$'] + rest) == done + ['$']
  {
    assert (['$'] + rest)[1..] == rest;
  }

  /** A value that is not empty and does not end in a backslash is inserted as it is, and
      substitution goes on behind it as if on fresh text. */
  lemma InsertedVerbatim(vars: seq<Variable>, done: string, rest: string)
    requires rest != "" && rest[0] == '$' && !(|rest| > 1 && rest[1] == '$') && !Escaped(done)
    requires FirstMatch(vars, rest).Some?
    requires var value := FirstMatch(vars, rest).value.value; value != "" && value[|value| - 1] != '\\'
    ensures var v := FirstMatch(vars, rest).value;
      Expand(vars, done, rest) == done + v.value + Expand(vars, "", rest[|v.name|..])
  {
    var v := FirstMatch(vars, rest).value;
    ExpandBehind(vars, done + v.value, "", rest[|v.name|..]);
    assert done + v.value + "" == done + v.value;
  }

  /** A dollar sign at which nothing defined starts stays. */
  lemma UndefinedKept(vars: seq<Variable>, rest: string)
    requires FirstMatch(vars, ['$'] + rest) == None && (rest == "" || rest[0] != '$')
    ensures Expand(vars, "", ['$'] + rest) == "$" + Expand(vars, "", rest)
  {
    assert (['$'] + rest)[1..] == rest && "" + "$" == "$" && "$" + "" == "$";
    ExpandBehind(vars, "$", "", rest);
  }

  /** Behind a backslash a dollar sign stays, and so does the backslash; what stands behind them is read as fresh
      text. */
  lemma EscapedKept(vars: seq<Variable>, rest: string)
    ensures Expand(vars, "", ['\\', '$'] + rest) == ['\\', '$'] + Expand(vars, "", rest)
  {
    var slash := [] + ['\\'];
    assert ['\\', '$'] + rest == ['\\'] + (['$'] + rest);
    CopyChar(vars, [], '\\', ['$'] + rest);
    CopyChar(vars, slash, '$', rest);
    assert slash + ['$'] == ['\\', '$'] && ['\\', '$'] + "" == ['\\', '$'];
    ExpandBehind(vars, ['\\', '$'], "", rest);
  }

  /** Behind two backslashes it does not: they stay, and the variable is substituted. */
  lemma TwoBackslashes(vars: seq<Variable>, rest: string)
    requires rest != "" && rest[0] == '$' && !(|rest| > 1 && rest[1] == '$') && FirstMatch(vars, rest).Some?
    requires var value := FirstMatch(vars, rest).value.value; value != "" && value[|value| - 1] != '\\'
    ensures var v := FirstMatch(vars, rest).value;
      Expand(vars, "", ['\\', '\\'] + rest) == ['\\', '\\'] + v.value + Expand(vars, "", rest[|v.name|..])
  {
    assert ['\\', '\\'] + rest == ['\\'] + (['\\'] + rest) && [] + ['\\'] + ['\\'] == ['\\', '\\'];
    CopyChar(vars, [], '\\', ['\\'] + rest);
    CopyChar(vars, [] + ['\\'], '\\', rest);
    InsertedVerbatim(vars, ['\\', '\\'], rest);
  }

  // ---- what the look-back sees ----

  /** The backslashes at the end of a text, as far as the look-back counts them. */
  function Tail(s: string): nat {
    if s == "" || s[|s| - 1] != '\\' then 0 else if |s| >= 2 && s[|s| - 2] == '\\' then 2 else 1
  }

  lemma TailEscapes(s: string)
    ensures Escaped(s) <==> Tail(s) == 1
  {
  }

  /** The substitution with a look-back on the original text: `seen` is what was read of it. */
  function ExpandBySource(vars: seq<Variable>, seen: string, done: string, rest: string): string
    decreases |rest|
  {
    if rest == "" then done
    else if rest[0] != '$' || Escaped(seen) then
      ExpandBySource(vars, seen + [rest[0]], done + [rest[0]], rest[1..])
    else if |rest| > 1 && rest[1] == '$' then ExpandBySource(vars, seen + "$$", done + "$", rest[2..])
    else match FirstMatch(vars, rest)
      case None => ExpandBySource(vars, seen + "$", done + "$", rest[1..])
      case Some(v) => ExpandBySource(vars, seen + v.name, done + v.value, rest[|v.name|..])
  }

  /** Wherever the loop stands, the look-back finds the backslashes of the original text. */
  ghost predicate Agrees(vars: seq<Variable>, seen: string, done: string, rest: string)
    decreases |rest|
  {
    && Tail(done) == Tail(seen)
    && (rest != "" ==>
      if rest[0] != '$' || Escaped(done) then Agrees(vars, seen + [rest[0]], done + [rest[0]], rest[1..])
      else if |rest| > 1 && rest[1] == '$' then Agrees(vars, seen + "$$", done + "$", rest[2..])
      else match FirstMatch(vars, rest)
        case None => Agrees(vars, seen + "$", done + "$", rest[1..])
        case Some(v) => Agrees(vars, seen + v.name, done + v.value, rest[|v.name|..]))
  }

  ghost predicate SeesOriginal(vars: seq<Variable>, text: string) {
    Agrees(vars, "", "", text)
  }

  lemma {:induction false} AgreesSame(vars: seq<Variable>, seen: string, done: string, rest: string)
    requires Agrees(vars, seen, done, rest)
    ensures Expand(vars, done, rest) == ExpandBySource(vars, seen, done, rest)
    decreases |rest|
  {
    TailEscapes(done);
    TailEscapes(seen);
    if rest != "" {
      if rest[0] != '$' || Escaped(done) {
        AgreesSame(vars, seen + [rest[0]], done + [rest[0]], rest[1..]);
      } else if |rest| > 1 && rest[1] == '$' {
        AgreesSame(vars, seen + "$$", done + "$", rest[2..]);
      } else {
        match FirstMatch(vars, rest)
        case None => AgreesSame(vars, seen + "$", done + "$", rest[1..]);
        case Some(v) => AgreesSame(vars, seen + v.name, done + v.value, rest[|v.name|..]);
      }
    }
  }

  /** Entries that can be the one chosen at some dollar sign. */
  predicate Usable(vars: seq<Variable>, v: Variable) {
    FirstMatch(vars, v.name) == Some(v) && !(|v.name| > 1 && v.name[1] == '$')
  }

  /** A value that looks, from behind, like its name: behind it the look-back cannot be mistaken. */
  predicate Harmless(v: Variable) {
    v.value != "" && v.value != "\\" && Tail(v.value) == Tail(v.name)
  }

  /** For a name that does not end in a backslash: a value that is neither empty nor ends in one. */
  lemma HarmlessIff(v: Variable)
    requires v.name[|v.name| - 1] != '\\'
    ensures Harmless(v) <==> v.value != "" && v.value[|v.value| - 1] != '\\'
  {
  }

  lemma {:induction false} ChosenIsUsable(vars: seq<Variable>, s: string)
    requires FirstMatch(vars, s).Some?
    ensures FirstMatch(vars, FirstMatch(vars, s).value.name) == FirstMatch(vars, s)
  {
    if !(vars[0].name <= s) {
      ChosenIsUsable(vars[1..], s);
      var name := FirstMatch(vars, s).value.name;
      assert name == s[..|name|];
    }
  }

  lemma TailBehind(done: string, value: string)
    requires value != "" && value != "\\"
    ensures Tail(done + value) == Tail(value)
  {
    var s := done + value;
    assert s[|s| - 1] == value[|value| - 1];
    if |value| >= 2 {
      assert s[|s| - 2] == value[|value| - 2];
    } else {
      assert value == [value[0]];
    }
  }

  lemma TailNext(a: string, b: string, c: char)
    requires Tail(a) == Tail(b)
    ensures Tail(a + [c]) == Tail(b + [c])
  {
  }

  lemma TailOfMatch(seen: string, done: string, v: Variable)
    requires Harmless(v)
    ensures Tail(done + v.value) == Tail(seen + v.name)
  {
    TailBehind(done, v.value);
    assert v.name[0] == '$';
    TailBehind(seen, v.name);
  }

  lemma {:induction false} HarmlessAgrees(vars: seq<Variable>, seen: string, done: string, rest: string)
    requires Tail(done) == Tail(seen)
    requires forall v :: v in vars && Usable(vars, v) ==> Harmless(v)
    ensures Agrees(vars, seen, done, rest)
    decreases |rest|
  {
    if rest != "" {
      if rest[0] != '$' || Escaped(done) {
        TailNext(done, seen, rest[0]);
        HarmlessAgrees(vars, seen + [rest[0]], done + [rest[0]], rest[1..]);
      } else if |rest| > 1 && rest[1] == '$' {
        HarmlessAgrees(vars, seen + "$$", done + "$", rest[2..]);
      } else {
        match FirstMatch(vars, rest)
        case None => HarmlessAgrees(vars, seen + "$", done + "$", rest[1..]);
        case Some(v) =>
          ChosenIsUsable(vars, rest);
          TailOfMatch(seen, done, v);
          HarmlessAgrees(vars, seen + v.name, done + v.value, rest[|v.name|..]);
      }
    }
  }

  /** A text at whose end the look-back is mistaken: the name, in front of which two backslashes may
      stand. */
  function Mistaken(v: Variable): string {
    if Tail(v.value) != Tail(v.name) then v.name else ['\\'] + (['\\'] + v.name)
  }

  lemma HarmMistakes(vars: seq<Variable>, v: Variable)
    requires Usable(vars, v) && !Harmless(v)
    ensures !SeesOriginal(vars, Mistaken(v))
  {
    if Tail(v.value) != Tail(v.name) {
      assert "" + v.name == v.name && "" + v.value == v.value;
      UseAgrees(vars, "", v);
    } else {
      var two := [] + ['\\'] + ['\\'];
      TailBehind(two, v.name);
      assert Tail(two + v.value) == 2;
      UseAgrees(vars, two, v);
      CopiedAgrees(vars, [] + ['\\'], '\\', v.name);
      CopiedAgrees(vars, [], '\\', ['\\'] + v.name);
    }
  }

  /** Behind a use of a variable the look-back is right only if its name and value look alike. */
  lemma UseAgrees(vars: seq<Variable>, done: string, v: Variable)
    requires Usable(vars, v) && !Escaped(done) && Tail(done + v.value) != Tail(done + v.name)
    ensures !Agrees(vars, done, done, v.name)
  {
    assert v.name[|v.name|..] == "";
    assert !Agrees(vars, done + v.name, done + v.value, "");
  }

  lemma CopiedAgrees(vars: seq<Variable>, done: string, c: char, rest: string)
    requires c != '$'
    ensures Agrees(vars, done, done, [c] + rest) <==> Agrees(vars, done + [c], done + [c], rest)
  {
    assert ([c] + rest)[1..] == rest;
  }

  /** The look-back sees the original text, whatever text is substituted in, exactly if every value that
      can be inserted is harmless. */
  lemma SeesOriginalIff(vars: seq<Variable>)
    ensures (forall text :: SeesOriginal(vars, text)) <==> forall v :: v in vars && Usable(vars, v) ==> Harmless(v)
  {
    if forall v :: v in vars && Usable(vars, v) ==> Harmless(v) {
      forall text
        ensures SeesOriginal(vars, text)
      {
        HarmlessAgrees(vars, "", "", text);
      }
    } else {
      var v :| v in vars && Usable(vars, v) && !Harmless(v);
      HarmMistakes(vars, v);
    }
  }

  /** With harmless values substitution is what it is with a look-back on the original text. */
  lemma HarmlessMeansBySource(vars: seq<Variable>, text: string)
    requires forall v :: v in vars && Usable(vars, v) ==> Harmless(v)
    ensures Expand(vars, "", text) == ExpandBySource(vars, "", "", text)
  {
    SeesOriginalIff(vars);
    assert SeesOriginal(vars, text);
    AgreesSame(vars, "", "", text);
  }

  /** Names without further dollar signs and without backslashes. */
  ghost predicate SimpleNames(vars: seq<Variable>) {
    forall v :: v in vars ==> '\\' !in v.name && '$' !in v.name[1..]
  }

  lemma InPrefix(a: string, s: string, i: nat)
    requires a <= s && i < |a|
    ensures s[i] in a
  {
    assert a[i] == s[i];
  }

  /** At a simple name with a backslash behind it, its own entry is chosen. */
  lemma ChosenAt(vars: seq<Variable>, v: Variable, rest: string)
    requires Table(vars) && SimpleNames(vars) && v in vars && rest != "" && rest[0] == '\\'
    ensures FirstMatch(vars, v.name + rest) == Some(v) && (v.name + rest)[1] != '$'
  {
    var s := v.name + rest;
    FirstMatchIsLongest(vars, s);
    assert v.name <= s;
    var w := FirstMatch(vars, s).value;
    if |w.name| > |v.name| { InPrefix(w.name, s, |v.name|); }
    assert w.name == s[..|w.name|] && v.name == s[..|v.name|];
    assert |v.name| > 1 ==> v.name[1] in v.name[1..];
  }

  lemma AtUse(vars: seq<Variable>, v: Variable, done: string, rest: string)
    requires Table(vars) && SimpleNames(vars) && v in vars && rest != "" && rest[0] == '\\' && !Escaped(done)
    ensures Expand(vars, done, v.name + rest) == Expand(vars, done + v.value, rest)
    ensures ExpandBySource(vars, done, done, v.name + rest) == ExpandBySource(vars, done + v.name, done + v.value, rest)
  {
    ChosenAt(vars, v, rest);
    assert (v.name + rest)[|v.name|..] == rest;
  }

  lemma CopyBoth(vars: seq<Variable>, seen: string, done: string, rest: string)
    ensures Expand(vars, done, ['\\'] + rest) == Expand(vars, done + ['\\'], rest)
    ensures ExpandBySource(vars, seen, done, ['\\'] + rest) == ExpandBySource(vars, seen + ['\\'], done + ['\\'], rest)
  {
    assert (['\\'] + rest)[1..] == rest;
  }

  /** Where the look-back sees two backslashes but the original text ends in one, dollar signs show it. */
  function Dollars(vars: seq<Variable>): string {
    match FirstMatch(vars, "$")
    case Some(v) => if v.value == "" then "$" else "$$"
    case None => "$$"
  }

  lemma DollarsTell(vars: seq<Variable>, seen: string, done: string)
    requires Tail(seen) == 1 && Tail(done) == 2
    ensures Expand(vars, done, Dollars(vars)) != ExpandBySource(vars, seen, done, Dollars(vars))
  {
    TailEscapes(seen);
    TailEscapes(done);
    var one, two := "$", "$$";
    assert one[1..] == "" && two[1..] == one && two[2..] == "" && one[0] == '$';
    if Dollars(vars) == one {
      var v := FirstMatch(vars, one).value;
      assert v.name <= one && one[|v.name|..] == "" && done + "" == done;
      assert Expand(vars, done, one) == done;
      assert ExpandBySource(vars, seen + ['$'], done + ['$'], "") == done + ['$'];
    } else {
      OneDollarBySource(vars, seen + ['$'], done + ['$']);
      assert Expand(vars, done, two) == done + "$";
      assert ExpandBySource(vars, seen, done, two) == ExpandBySource(vars, seen + ['$'], done + ['$'], one);
    }
  }

  lemma OneDollarBySource(vars: seq<Variable>, seen: string, done: string)
    requires !Escaped(seen) && Dollars(vars) != "$"
    ensures |ExpandBySource(vars, seen, done, "$")| > |done|
  {
    var one := "$";
    assert one[1..] == "" && one[0] == '$';
    match FirstMatch(vars, one)
    case None =>
    case Some(v) => assert v.name <= one && one[|v.name|..] == "";
  }

  lemma TailAfterBackslash(s: string)
    ensures Tail(s + ['\\']) == if Tail(s) == 0 then 1 else 2
  {
  }

  /** A text on which the two substitutions differ: the variable between backslashes, and dollar signs. */
  lemma ResultsDiffer(vars: seq<Variable>, v: Variable) returns (text: string)
    requires Table(vars) && SimpleNames(vars) && v in vars
    requires v.value == "" || v.value[|v.value| - 1] == '\\'
    ensures Expand(vars, "", text) != ExpandBySource(vars, "", "", text)
  {
    hide Expand, ExpandBySource, Table, Dollars;
    var front := if v.value == "" then [] + ['\\'] + ['\\'] else [];
    var rest := ['\\'] + Dollars(vars);
    var behind := v.name + rest;
    AtUse(vars, v, front, rest);
    CopyBoth(vars, front + v.name, front + v.value, Dollars(vars));
    assert v.name[|v.name| - 1] in v.name;
    assert (front + v.name)[|front + v.name| - 1] == v.name[|v.name| - 1];
    TailAfterBackslash(front + v.name);
    TailAfterBackslash(front + v.value);
    assert v.value != "" ==> (front + v.value)[|front + v.value| - 1] == '\\';
    assert v.value == "" ==> front + v.value == front;
    DollarsTell(vars, front + v.name + ['\\'], front + v.value + ['\\']);
    if v.value == "" {
      text := ['\\'] + (['\\'] + behind);
      CopyBoth(vars, [], [], ['\\'] + behind);
      CopyBoth(vars, [] + ['\\'], [] + ['\\'], behind);
    } else {
      text := behind;
    }
  }

  /** With simple names, substitution is what it is with a look-back on the original text, for every text,
      exactly if no value is empty or ends in a backslash. */
  lemma SameResultIff(vars: seq<Variable>)
    requires Table(vars) && SimpleNames(vars)
    ensures (forall text :: Expand(vars, "", text) == ExpandBySource(vars, "", "", text))
       <==> forall v :: v in vars ==> v.value != "" && v.value[|v.value| - 1] != '\\'
  {
    if forall v :: v in vars ==> v.value != "" && v.value[|v.value| - 1] != '\\' {
      forall v | v in vars && Usable(vars, v)
        ensures Harmless(v)
      {
        assert v.name[|v.name| - 1] in v.name;
        HarmlessIff(v);
      }
      forall text
        ensures Expand(vars, "", text) == ExpandBySource(vars, "", "", text)
      {
        HarmlessMeansBySource(vars, text);
      }
    } else {
      var v :| v in vars && !(v.value != "" && v.value[|v.value| - 1] != '\\');
      var text := ResultsDiffer(vars, v);
    }
  }

  /** With a value that is a backslash it is not: the second of two uses is taken for escaped. */
  lemma SecondUseLost(v: Variable)
    requires v == Symbol("$a", "\\")
    ensures Expand([v], "", "$a$a") == "\\$a" && ExpandBySource([v], "", "", "$a$a") == "\\\\"
  {
    var one, vars: seq<Variable> := "$a", [v];
    var two := one + one;
    assert two == "$a$a" && two[2..] == one && one[2..] == "" && one[1..] == "a" && "a"[1..] == "";
    assert one <= two && one <= one && FirstMatch(vars, two) == FirstMatch(vars, one) == Some(v);
    assert "" + "\\" == "\\" && "\\" + "\\" == "\\\\" && "\\" + ['$'] + ['a'] == "\\$a";
    assert Expand(vars, "\\" + ['$'], "a") == "\\$a";
    assert Expand(vars, "\\", one) == "\\$a";
    assert ExpandBySource(vars, one, "\\", one) == "\\\\" by {
      assert ExpandBySource(vars, one + one, "\\" + "\\", "") == "\\\\";
    }
    assert "" + one == one;
  }
}
