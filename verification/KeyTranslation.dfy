/** What translating keysyms into keycodes does to the keys of a binding. */
module KeyTranslation {
  import opened Options

  datatype Kind = Keycode | Keysym | Mousecode | Mousesym

  predicate Ascending(keys: seq<nat>) {
    |keys| <= 1 || (keys[0] <= keys[1] && Ascending(keys[1..]))
  }

  function InsertKey(key: nat, keys: seq<nat>): seq<nat> {
    if keys == [] || key <= keys[0] then [key] + keys else [keys[0]] + InsertKey(key, keys[1..])
  }

  function SortKeys(keys: seq<nat>): seq<nat> {
    if keys == [] then [] else InsertKey(keys[0], SortKeys(keys[1..]))
  }

  lemma {:induction false} InsertKeyAdds(key: nat, keys: seq<nat>)
    ensures multiset(InsertKey(key, keys)) == multiset{key} + multiset(keys)
  {
    if keys != [] {
      assert keys == [keys[0]] + keys[1..];
      InsertKeyAdds(key, keys[1..]);
    }
  }

  lemma {:induction false} InsertKeySorts(key: nat, keys: seq<nat>)
    requires Ascending(keys)
    ensures Ascending(InsertKey(key, keys))
    ensures multiset(InsertKey(key, keys)) == multiset{key} + multiset(keys)
  {
    InsertKeyAdds(key, keys);
    if keys != [] && key > keys[0] {
      InsertKeySorts(key, keys[1..]);
      InsertKeyAdds(key, keys[1..]);
      assert InsertKey(key, keys)[1..] == InsertKey(key, keys[1..]);
    }
  }

  lemma {:induction false} SortKeysSorts(keys: seq<nat>)
    ensures Ascending(SortKeys(keys)) && multiset(SortKeys(keys)) == multiset(keys)
  {
    if keys != [] {
      SortKeysSorts(keys[1..]);
      InsertKeySorts(keys[0], SortKeys(keys[1..]));
      assert keys == [keys[0]] + keys[1..];
    }
  }

  lemma {:induction false} HeadIsLeast(keys: seq<nat>, key: nat)
    requires Ascending(keys) && key in keys
    ensures keys[0] <= key
  {
    if key != keys[0] {
      assert key in keys[1..];
      HeadIsLeast(keys[1..], key);
    }
  }

  lemma MultisetTail(keys: seq<nat>)
    requires keys != []
    ensures multiset(keys[1..]) == multiset(keys) - multiset{keys[0]} && keys[0] in multiset(keys)
  {
    assert keys == [keys[0]] + keys[1..];
  }

  lemma SameHead(a: seq<nat>, b: seq<nat>)
    requires Ascending(a) && Ascending(b) && multiset(a) == multiset(b) && a != [] && b != []
    ensures a[0] == b[0]
  {
    assert b[0] in multiset(a) && a[0] in multiset(b);
    HeadIsLeast(a, b[0]);
    HeadIsLeast(b, a[0]);
  }

  /** Why comparing sorted keys one by one decides whether two bindings hold the same keys. */
  lemma {:induction false} SortedKeysEqual(a: seq<nat>, b: seq<nat>)
    requires Ascending(a) && Ascending(b) && multiset(a) == multiset(b)
    ensures a == b
  {
    assert |multiset(a)| == |a| && |multiset(b)| == |b|;
    if a != [] {
      SameHead(a, b);
      MultisetTail(a);
      MultisetTail(b);
      SortedKeysEqual(a[1..], b[1..]);
      assert a == [a[0]] + a[1..] && b == [b[0]] + b[1..];
    }
  }

  /** What translation may change of a binding; `syms` are the keysyms `keys` was translated from. */
  datatype KeyState = KeyState(kind: Kind, keys: seq<nat>, syms: Option<seq<nat>>)

  /** Keys are sorted, and keysyms are on record for exactly the translated bindings. */
  predicate StateOk(s: KeyState, code: bool) {
    && Ascending(s.keys)
    && (s.syms.Some? <==> code && s.kind == Keycode)
    && (s.syms.Some? ==> Ascending(s.syms.value))
  }

  /** One key of a keymap; keysym 0 stands for "no symbol". */
  datatype Key = Key(code: nat, sym: nat)

  function CodeOf(key: Key, sym: nat): seq<nat> {
    if key.sym == sym != 0 then [key.code] else []
  }

  /** The codes of the keys that give a keysym. */
  function Codes(keymap: seq<Key>, sym: nat): seq<nat> {
    if keymap == [] then []
    else Codes(keymap[..|keymap| - 1], sym) + CodeOf(keymap[|keymap| - 1], sym)
  }

  predicate Gives(keymap: seq<Key>, i: int, sym: nat) {
    0 <= i < |keymap| && keymap[i].sym == sym != 0
  }

  predicate HasOneCode(keymap: seq<Key>, sym: nat) {
    |Codes(keymap, sym)| == 1
  }

  lemma {:induction false} NoCodeIff(keymap: seq<Key>, sym: nat)
    ensures Codes(keymap, sym) == [] <==> forall i :: !Gives(keymap, i, sym)
  {
    if keymap != [] {
      NoCodeIff(keymap[..|keymap| - 1], sym);
      GivesBefore(keymap, sym);
    }
  }

  lemma GivesBefore(keymap: seq<Key>, sym: nat)
    requires keymap != []
    ensures var n := |keymap| - 1;
      (forall i :: !Gives(keymap, i, sym))
      <==> (forall i :: !Gives(keymap[..n], i, sym)) && CodeOf(keymap[n], sym) == []
  {
    var n := |keymap| - 1;
    assert forall i :: 0 <= i < n ==> (Gives(keymap, i, sym) <==> Gives(keymap[..n], i, sym));
    assert Gives(keymap, n, sym) <==> CodeOf(keymap[n], sym) != [];
  }

  ghost predicate OnlyGives(keymap: seq<Key>, i: int, sym: nat) {
    Gives(keymap, i, sym) && forall j :: Gives(keymap, j, sym) ==> j == i
  }

  /** A keysym has one code exactly if one key of the keymap gives it, and then it is that key's. */
  lemma {:induction false} HasOneCodeIff(keymap: seq<Key>, sym: nat)
    ensures HasOneCode(keymap, sym) <==> exists i :: OnlyGives(keymap, i, sym)
    ensures forall i :: OnlyGives(keymap, i, sym) ==> Codes(keymap, sym) == [keymap[i].code]
  {
    if keymap != [] {
      var init := keymap[..|keymap| - 1];
      HasOneCodeIff(init, sym);
      NoCodeIff(init, sym);
      OneCodeNext(keymap, sym);
    }
  }

  lemma OneCodeNext(keymap: seq<Key>, sym: nat)
    requires keymap != []
    requires var init := keymap[..|keymap| - 1];
      && (Codes(init, sym) == [] <==> forall i :: !Gives(init, i, sym))
      && (HasOneCode(init, sym) <==> exists i :: OnlyGives(init, i, sym))
      && (forall i :: OnlyGives(init, i, sym) ==> Codes(init, sym) == [init[i].code])
    ensures HasOneCode(keymap, sym) <==> exists i :: OnlyGives(keymap, i, sym)
    ensures forall i :: OnlyGives(keymap, i, sym) ==> Codes(keymap, sym) == [keymap[i].code]
  {
    var n := |keymap| - 1;
    CodesLast(keymap, sym);
    LastGives(keymap, sym);
    if !Gives(keymap, n, sym) {
      forall i
        ensures OnlyGives(keymap, i, sym) <==> OnlyGives(keymap[..n], i, sym)
      {
        LastDoesNot(keymap, sym, i);
      }
    }
  }

  lemma CodesLast(keymap: seq<Key>, sym: nat)
    requires keymap != []
    ensures var n := |keymap| - 1;
      Codes(keymap, sym) == Codes(keymap[..n], sym) + if Gives(keymap, n, sym) then [keymap[n].code] else []
  {
  }

  lemma LastGives(keymap: seq<Key>, sym: nat)
    requires keymap != []
    ensures var n := |keymap| - 1;
      Gives(keymap, n, sym) ==>
        && (OnlyGives(keymap, n, sym) <==> forall i :: !Gives(keymap[..n], i, sym))
        && forall i :: OnlyGives(keymap, i, sym) ==> i == n
  {
    var n := |keymap| - 1;
    assert forall i :: 0 <= i < n ==> (Gives(keymap, i, sym) <==> Gives(keymap[..n], i, sym));
  }

  lemma LastDoesNot(keymap: seq<Key>, sym: nat, i: int)
    requires keymap != [] && !Gives(keymap, |keymap| - 1, sym)
    ensures OnlyGives(keymap, i, sym) <==> OnlyGives(keymap[..|keymap| - 1], i, sym)
  {
    var n := |keymap| - 1;
    assert forall j :: Gives(keymap, j, sym) <==> Gives(keymap[..n], j, sym);
  }

  predicate Translatable(keymap: seq<Key>, syms: seq<nat>) {
    forall i :: 0 <= i < |syms| ==> HasOneCode(keymap, syms[i])
  }

  /** The one code of each keysym. */
  function CodesOf(keymap: seq<Key>, syms: seq<nat>): (codes: seq<nat>)
    requires Translatable(keymap, syms)
    ensures |codes| == |syms|
  {
    if syms == [] then [] else CodesOf(keymap, syms[..|syms| - 1]) + Codes(keymap, syms[|syms| - 1])
  }

  lemma CodesOfNext(keymap: seq<Key>, syms: seq<nat>, i: nat)
    requires i < |syms| && Translatable(keymap, syms[..i]) && HasOneCode(keymap, syms[i])
    ensures Translatable(keymap, syms[..i + 1])
    ensures CodesOf(keymap, syms[..i + 1]) == CodesOf(keymap, syms[..i]) + [Codes(keymap, syms[i])[0]]
  {
    hide Codes;
    TranslatableNext(keymap, syms, i);
    assert syms[..i + 1][..i] == syms[..i];
  }

  lemma TranslatableNext(keymap: seq<Key>, syms: seq<nat>, i: nat)
    requires i < |syms| && Translatable(keymap, syms[..i]) && HasOneCode(keymap, syms[i])
    ensures Translatable(keymap, syms[..i + 1])
  {
    hide HasOneCode;
    assert forall j :: 0 <= j < i ==> syms[..i + 1][j] == syms[..i][j];
  }

  lemma NoCodesYet(keymap: seq<Key>, syms: seq<nat>)
    ensures Translatable(keymap, syms[..0]) && CodesOf(keymap, syms[..0]) == []
  {
  }

  lemma NotTranslatable(keymap: seq<Key>, syms: seq<nat>, i: nat)
    requires i < |syms| && !HasOneCode(keymap, syms[i])
    ensures !Translatable(keymap, syms)
  {
  }

  /** The keysyms a binding was written with. */
  function SymsOf(s: KeyState): seq<nat> {
    if s.syms.Some? then s.syms.value else s.keys
  }

  function Translated(s: KeyState, code: bool, keymap: seq<Key>): KeyState {
    if !code || s.kind in {Mousecode, Mousesym} then s
    else if Translatable(keymap, SymsOf(s)) then
      KeyState(Keycode, SortKeys(CodesOf(keymap, SymsOf(s))), Some(SymsOf(s)))
    else KeyState(Keysym, SymsOf(s), None)
  }

  /** Translation keeps a binding in order and never loses the keysyms it was written with. */
  lemma TranslatedOk(s: KeyState, code: bool, keymap: seq<Key>)
    requires StateOk(s, code)
    ensures StateOk(Translated(s, code, keymap), code)
    ensures SymsOf(Translated(s, code, keymap)) == SymsOf(s)
    ensures s.kind in {Keysym, Keycode} <==> Translated(s, code, keymap).kind in {Keysym, Keycode}
  {
    if code && s.kind in {Keysym, Keycode} && Translatable(keymap, SymsOf(s)) {
      SortKeysSorts(CodesOf(keymap, SymsOf(s)));
    }
  }

  /** Re-translation has no memory: what a new keymap makes of a binding does not depend on the
      keymaps it went through before. */
  lemma RetranslationForgets(s: KeyState, code: bool, first: seq<Key>, second: seq<Key>)
    requires StateOk(s, code)
    ensures Translated(Translated(s, code, first), code, second) == Translated(s, code, second)
  {
    TranslatedOk(s, code, first);
  }

  // ---- which keycodes come out ----

  /** For each keysym the one key that gives it. */
  ghost predicate Assigned(keymap: seq<Key>, syms: seq<nat>, at: seq<nat>) {
    |at| == |syms| && forall j :: 0 <= j < |syms| ==> at[j] < |keymap| && OnlyGives(keymap, at[j], syms[j])
  }

  function CodesAt(keymap: seq<Key>, at: seq<nat>): seq<nat>
    requires forall j :: 0 <= j < |at| ==> at[j] < |keymap|
  {
    seq(|at|, j requires 0 <= j < |at| => keymap[at[j]].code)
  }

  lemma {:induction false} AssignedCodes(keymap: seq<Key>, syms: seq<nat>, at: seq<nat>)
    requires Assigned(keymap, syms, at)
    ensures Translatable(keymap, syms) && CodesOf(keymap, syms) == CodesAt(keymap, at)
  {
    hide Codes, OnlyGives;
    forall j | 0 <= j < |syms|
      ensures HasOneCode(keymap, syms[j])
    {
      HasOneCodeIff(keymap, syms[j]);
    }
    if syms != [] {
      var n := |syms| - 1;
      AssignedCodes(keymap, syms[..n], at[..n]);
      HasOneCodeIff(keymap, syms[n]);
      assert CodesAt(keymap, at) == CodesAt(keymap, at[..n]) + [keymap[at[n]].code];
    }
  }

  /** A binding whose keysyms each stand on one key of the keymap ends up with the codes of those keys. */
  lemma TranslatedMeans(s: KeyState, keymap: seq<Key>, at: seq<nat>)
    requires s.kind in {Keysym, Keycode} && Assigned(keymap, SymsOf(s), at)
    ensures var t := Translated(s, true, keymap);
      && t.kind == Keycode && t.syms == Some(SymsOf(s))
      && Ascending(t.keys) && multiset(t.keys) == multiset(CodesAt(keymap, at))
  {
    AssignedCodes(keymap, SymsOf(s), at);
    SortKeysSorts(CodesAt(keymap, at));
  }

  /** If one of them stands on no key or on several, the binding goes by its keysyms. */
  lemma NotTranslated(s: KeyState, keymap: seq<Key>, j: nat)
    requires s.kind in {Keysym, Keycode} && j < |SymsOf(s)| && forall i :: !OnlyGives(keymap, i, SymsOf(s)[j])
    ensures Translated(s, true, keymap) == KeyState(Keysym, SymsOf(s), None)
  {
    HasOneCodeIff(keymap, SymsOf(s)[j]);
  }

  /** Bindings that ask for no translation, and those for mouse buttons, stay as they are. */
  lemma LeftAlone(s: KeyState, code: bool, keymap: seq<Key>)
    requires !code || s.kind.Mousecode? || s.kind.Mousesym?
    ensures Translated(s, code, keymap) == s
  {
  }
}
