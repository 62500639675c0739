/** Key and button bindings: `bindsym`, `bindcode`, their inverses, and re-translation of all
    keysym bindings when the keymap changes. */
module Bindings {
  import opened Options
  import opened BindingTable
  import opened KeyTranslation

  class Binding {
    const input: string
    const order: int
    const command: string
    const flags: set<Flag>
    const modifiers: nat
    const group: int
    var kind: Kind
    var keys: seq<nat>
    var syms: Option<seq<nat>>

    constructor (input: string, order: int, command: string, flags: set<Flag>, modifiers: nat, group: int, kind: Kind,
        keys: seq<nat>)
      ensures this.input == input && this.order == order && this.command == command && this.flags == flags
      ensures this.modifiers == modifiers && this.group == group && State() == KeyState(kind, keys, None)
    {
      this.input, this.order, this.command, this.flags := input, order, command, flags;
      this.modifiers, this.group, this.kind, this.keys, this.syms := modifiers, group, kind, keys, None;
    }

    ghost function State(): KeyState
      reads this
    {
      KeyState(kind, keys, syms)
    }

    /** Keys are sorted, and keysyms are on record for exactly the translated bindings. */
    ghost predicate Ok()
      reads this
    {
      StateOk(State(), Code in flags)
    }

    ghost function Combination(): Combo
      reads this
    {
      Combo(input, kind, flags * CONFLICTING, group, modifiers, multiset(keys))
    }

    /** `binding_key_compare`: the keys are compared one by one, which needs them sorted. */
    method Conflicts(other: Binding) returns (same: bool)
      requires Ok() && other.Ok()
      ensures same <==> Combination() == other.Combination()
    {
      if input != other.input || kind != other.kind || flags * CONFLICTING != other.flags * CONFLICTING {
        return false;
      }
      if group != other.group || modifiers != other.modifiers {
        return false;
      }
      if multiset(keys) == multiset(other.keys) {
        SortedKeysEqual(keys, other.keys);
      }
      if |keys| != |other.keys| {
        return false;
      }
      for i := 0 to |keys|
        invariant keys[..i] == other.keys[..i]
      {
        if keys[i] != other.keys[i] {
          return false;
        }
      }
      assert keys[..|keys|] == keys && other.keys[..|keys|] == other.keys;
      return true;
    }

    /** `translate_binding`; false if some keysym does not have exactly one code. */
    method Translate(keymap: seq<Key>) returns (ok: bool)
      requires Ok()
      modifies this
      ensures State() == Translated(old(State()), Code in flags, keymap)
      ensures ok <==> Code in flags && old(kind) in {Keysym, Keycode} ==> kind == Keycode
    {
      hide Translatable, CodesOf, Codes, Ascending, SortKeys;
      ghost var written := SymsOf(State());
      if Code !in flags {
        return true;
      }
      match kind {
        case Keysym => syms, keys := Some(keys), [];
        case Keycode => keys := [];
        case _ => return true;
      }
      var i := 0;
      NoCodesYet(keymap, written);
      while i < |syms.value|
        invariant syms == Some(written) && 0 <= i <= |written|
        invariant Translatable(keymap, written[..i]) && keys == CodesOf(keymap, written[..i])
      {
        var code, count := KeycodeForKeysym(keymap, syms.value[i]);
        if count != 1 {
          NotTranslatable(keymap, written, i);
          kind, keys, syms := Keysym, syms.value, None;
          return false;
        }
        CodesOfNext(keymap, written, i);
        keys := keys + [code];
        i := i + 1;
      }
      assert written[..i] == written;
      kind, keys := Keycode, SortKeys(keys);
      return true;
    }

    /** What `bindsym` and `bindcode` do to a parsed binding before they add or remove it. Only
        `bindsym` sets the flag that asks for translation. */
    method Prepare(keymap: seq<Key>)
      requires syms == None && (Code in flags ==> kind != Keycode)
      modifies this
      ensures Ok() && State() == Translated(KeyState(old(kind), SortKeys(old(keys)), None), Code in flags, keymap)
    {
      SortKeysSorts(keys);
      keys := SortKeys(keys);
      TranslatedOk(State(), Code in flags, keymap);
      var _ := Translate(keymap);
    }
  }

  /** `get_keycode_for_keysym`: how many keys give a keysym, and the code of the last of them. */
  method KeycodeForKeysym(keymap: seq<Key>, sym: nat) returns (code: nat, count: nat)
    ensures count == |Codes(keymap, sym)|
    ensures count > 0 ==> code == Codes(keymap, sym)[count - 1]
  {
    code, count := 0, 0;
    for i := 0 to |keymap|
      invariant count == |Codes(keymap[..i], sym)|
      invariant count > 0 ==> code == Codes(keymap[..i], sym)[count - 1]
    {
      assert keymap[..i + 1][..i] == keymap[..i];
      if keymap[i].sym != 0 {
        if sym == keymap[i].sym {
          code, count := keymap[i].code, count + 1;
        }
      }
    }
    assert keymap[..|keymap|] == keymap;
  }

  /** A list of bindings in order, and its contents as a value. */
  ghost predicate Linked(bindings: seq<Binding>, es: seq<Entry<Binding>>)
    reads bindings
  {
    && |es| == |bindings|
    && forall i :: 0 <= i < |bindings| ==> bindings[i].Ok() && es[i] == Entry(bindings[i].Combination(), bindings[i])
  }

  /** The search that both `binding_upsert` and `binding_remove` make. */
  method IndexOf(binding: Binding, bindings: seq<Binding>, ghost es: seq<Entry<Binding>>) returns (i: nat)
    requires binding.Ok() && Linked(bindings, es)
    ensures i == Find(es, binding.Combination())
  {
    i := 0;
    while i < |bindings|
      invariant i <= |bindings|
      invariant forall j :: 0 <= j < i ==> es[j].combo != binding.Combination()
    {
      var same := binding.Conflicts(bindings[i]);
      if same {
        return;
      }
      i := i + 1;
    }
  }

  /** `binding_upsert`: insert or replace, and tell which binding was replaced. */
  method Upsert(b: Binding, bindings: seq<Binding>, ghost es: seq<Entry<Binding>>)
    returns (updated: seq<Binding>, replaced: Option<Binding>)
    requires b.Ok() && Linked(bindings, es)
    ensures Linked(updated, Put(es, Entry(b.Combination(), b)))
    ensures Displaced(es, b.Combination()) == if replaced.Some? then {replaced.value} else {}
  {
    var i := IndexOf(b, bindings, es);
    if i < |bindings| {
      return bindings[i := b], Some(bindings[i]);
    }
    return bindings + [b], None;
  }

  /** `free_sway_binding`, which must not see a binding twice; `freed` are those it has seen. */
  ghost function Free(b: Option<Binding>, freed: set<Binding>): set<Binding>
    requires b.Some? ==> b.value !in freed
  {
    if b.Some? then freed + {b.value} else freed
  }

  /** The state of `translate_binding_list`: the new lists hold what the round says. */
  ghost predicate Holds(syms: seq<Binding>, codes: seq<Binding>, r: Round<Binding>)
    reads syms, codes
  {
    Linked(syms, r.syms) && Linked(codes, r.codes) && Consistent(r)
  }

  /** The second half of one round of `translate_binding_list`: the translated binding goes on the
      new list for its kind, and a binding it replaces there is freed. */
  method Place(b: Binding, syms: seq<Binding>, codes: seq<Binding>, ghost r: Round<Binding>)
    returns (newSyms: seq<Binding>, newCodes: seq<Binding>, ghost freed: set<Binding>)
    requires b.Ok() && b.kind in {Keysym, Keycode} && Holds(syms, codes, r) && b !in Values(r.done)
    ensures Holds(newSyms, newCodes, Distribute(r, Entry(b.Combination(), b)))
    ensures freed == Distribute(r, Entry(b.Combination(), b)).freed
  {
    newSyms, newCodes := syms, codes;
    var replaced: Option<Binding>;
    DistributeConsistent(r, Entry(b.Combination(), b));
    if b.kind == Keysym {
      newSyms, replaced := Upsert(b, syms, r.syms);
    } else {
      newCodes, replaced := Upsert(b, codes, r.codes);
    }
    freed := Free(replaced, r.freed);
  }

  lemma NotListed(b: Binding, syms: seq<Binding>, codes: seq<Binding>, r: Round<Binding>)
    requires Holds(syms, codes, r) && b !in Values(r.done)
    ensures (forall i :: 0 <= i < |syms| ==> syms[i] != b) && (forall i :: 0 <= i < |codes| ==> codes[i] != b)
  {
    ListsApart(r.done);
    forall i | 0 <= i < |syms|
      ensures syms[i] != b
    {
      assert r.syms[i] in r.syms && r.syms[i].value == syms[i];
    }
    forall i | 0 <= i < |codes|
      ensures codes[i] != b
    {
      assert r.codes[i] in r.codes && r.codes[i].value == codes[i];
    }
  }

  /** One round of `translate_binding_list`. */
  method TranslateNext(b: Binding, syms: seq<Binding>, codes: seq<Binding>, ghost r: Round<Binding>, keymap: seq<Key>)
    returns (newSyms: seq<Binding>, newCodes: seq<Binding>, ghost now: Round<Binding>)
    requires b.Ok() && b.kind in {Keysym, Keycode} && Holds(syms, codes, r) && b !in Values(r.done)
    modifies b
    ensures b.Ok() && b.State() == Translated(old(b.State()), Code in b.flags, keymap)
    ensures now == Distribute(r, Entry(b.Combination(), b)) && Holds(newSyms, newCodes, now)
  {
    NotListed(b, syms, codes, r);
    TranslatedOk(b.State(), Code in b.flags, keymap);
    var _ := b.Translate(keymap);
    ghost var freed;
    newSyms, newCodes, freed := Place(b, syms, codes, r);
    now := Distribute(r, Entry(b.Combination(), b));
  }

  /** The first `i` bindings are translated, the others as they were. */
  ghost predicate TranslatedUpTo(bindings: seq<Binding>, was: seq<KeyState>, i: nat, keymap: seq<Key>)
    requires i <= |bindings| == |was|
    reads bindings
  {
    && (forall j :: 0 <= j < i ==> bindings[j].State() == Translated(was[j], Code in bindings[j].flags, keymap))
    && (forall j :: i <= j < |bindings| ==> bindings[j].State() == was[j])
  }

  ghost function States(bindings: seq<Binding>): (was: seq<KeyState>)
    reads bindings
    ensures |was| == |bindings| && forall j :: 0 <= j < |was| ==> was[j] == bindings[j].State()
  {
    if bindings == [] then [] else States(bindings[..|bindings| - 1]) + [bindings[|bindings| - 1].State()]
  }

  /** `es` are the entries of the first bindings. */
  ghost predicate EntriesUpTo(bindings: seq<Binding>, es: seq<Entry<Binding>>)
    reads bindings
  {
    && |es| <= |bindings|
    && forall j :: 0 <= j < |es| ==> es[j] == Entry(bindings[j].Combination(), bindings[j])
  }

  /** The state of a binding on one of the two keyboard lists. */
  ghost predicate KeyboardState(s: KeyState, code: bool) {
    StateOk(s, code) && s.kind in {Keysym, Keycode}
  }

  ghost predicate Unique(bindings: seq<Binding>) {
    forall i, j :: 0 <= i < j < |bindings| ==> bindings[i] != bindings[j]
  }

  lemma DistributeDone<V>(done: seq<Entry<V>>, es: seq<Entry<V>>, r: Round<V>, e: Entry<V>)
    requires r.done == done + es
    ensures Distribute(r, e).done == done + (es + [e])
    ensures Values(Distribute(r, e).done) == Values(r.done) + {e.value}
  {
    assert forall x :: x in r.done + [e] <==> x in r.done || x == e;
  }

  /** What the bindings from `i` on are like while those before went through. */
  ghost predicate Waiting(bindings: seq<Binding>, i: nat, was: seq<KeyState>, done: seq<Entry<Binding>>)
    requires i <= |bindings| == |was|
  {
    forall j :: i <= j < |bindings| ==> bindings[j] !in Values(done) && KeyboardState(was[j], Code in bindings[j].flags)
  }

  /** A round of `translate_binding_list`, on the binding at an index. */
  method TranslateAt(bindings: seq<Binding>, i: nat, syms: seq<Binding>, codes: seq<Binding>, ghost r: Round<Binding>,
      keymap: seq<Key>,
      ghost was: seq<KeyState>, ghost es: seq<Entry<Binding>>)
    returns (newSyms: seq<Binding>, newCodes: seq<Binding>, ghost now: Round<Binding>, ghost e: Entry<Binding>)
    requires i < |bindings| == |was| && |es| == i && Unique(bindings) && Waiting(bindings, i, was, r.done)
    requires Holds(syms, codes, r) && EntriesUpTo(bindings, es) && TranslatedUpTo(bindings, was, i, keymap)
    modifies bindings[i]
    ensures Holds(newSyms, newCodes, now) && now == Distribute(r, e) && e.value == bindings[i]
    ensures EntriesUpTo(bindings, es + [e]) && TranslatedUpTo(bindings, was, i + 1, keymap)
  {
    assert forall j :: 0 <= j < |bindings| && j != i ==> bindings[j] != bindings[i];
    newSyms, newCodes, now := TranslateNext(bindings[i], syms, codes, r, keymap);
    e := Entry(bindings[i].Combination(), bindings[i]);
  }

  /** All bindings of a list are translated, and are what was gone through. */
  ghost predicate Finished(bindings: seq<Binding>, was: seq<KeyState>, keymap: seq<Key>, es: seq<Entry<Binding>>)
    reads bindings
  {
    |es| == |bindings| == |was| && EntriesUpTo(bindings, es) && TranslatedUpTo(bindings, was, |bindings|, keymap)
  }

  /** `translate_binding_list`: every binding is translated, and put on the new list for its kind. */
  method TranslateList(bindings: seq<Binding>, syms: seq<Binding>, codes: seq<Binding>,
      ghost r: Round<Binding>, keymap: seq<Key>, ghost was: seq<KeyState>)
    returns (newSyms: seq<Binding>, newCodes: seq<Binding>, ghost now: Round<Binding>, ghost es: seq<Entry<Binding>>)
    requires Holds(syms, codes, r) && Unique(bindings) && |was| == |bindings| && Waiting(bindings, 0, was, r.done)
    requires TranslatedUpTo(bindings, was, 0, keymap)
    modifies bindings
    ensures Holds(newSyms, newCodes, now) && now.done == r.done + es && Finished(bindings, was, keymap, es)
  {
    newSyms, newCodes, now, es := syms, codes, r, [];
    for i := 0 to |bindings|
      invariant Holds(newSyms, newCodes, now) && now.done == r.done + es && |es| == i
      invariant EntriesUpTo(bindings, es) && TranslatedUpTo(bindings, was, i, keymap)
      invariant Waiting(bindings, i, was, now.done)
    {
      ghost var before, e := now, *;
      newSyms, newCodes, now, e := TranslateAt(bindings, i, newSyms, newCodes, now, keymap, was, es);
      DistributeDone(r.done, es, before, e);
      es := es + [e];
    }
  }

  /** Mouse bindings of both kinds share a list. */
  function Home(kind: Kind): Kind {
    if kind == Mousecode then Mousesym else kind
  }

  /** Bindings of one list, no two of them for the same combination. */
  ghost predicate Table(bindings: seq<Binding>, es: seq<Entry<Binding>>, home: Kind)
    reads bindings
  {
    && Linked(bindings, es) && Distinct(es)
    && forall i :: 0 <= i < |es| ==> Home(es[i].combo.kind) == home
  }

  /** `binding_add`: put a binding on a list and free the one it replaces. */
  method Add(b: Binding, bindings: seq<Binding>, ghost es: seq<Entry<Binding>>, ghost home: Kind)
    returns (updated: seq<Binding>, ghost now: seq<Entry<Binding>>, ghost freed: set<Binding>)
    requires b.Ok() && Home(b.kind) == home && Table(bindings, es, home)
    ensures now == Put(es, Entry(b.Combination(), b)) && Table(updated, now, home)
    ensures freed == Displaced(es, b.Combination())
  {
    hide Linked, Distinct;
    var replaced: Option<Binding>;
    PutIsUpdate(es, Entry(b.Combination(), b));
    updated, replaced := Upsert(b, bindings, es);
    now, freed := Put(es, Entry(b.Combination(), b)), Free(replaced, {});
  }

  lemma TableDropped(bindings: seq<Binding>, es: seq<Entry<Binding>>, home: Kind, combo: Combo)
    requires Table(bindings, es, home)
    ensures var i := Find(es, combo);
      Table(if i < |es| then bindings[..i] + bindings[i + 1..] else bindings, Drop(es, combo), home)
  {
    hide Distinct, Linked, Home;
    var i := Find(es, combo);
    if i < |es| {
      DistinctDropped(es, i);
      LinkedDropped(bindings, es, i);
      HomesDropped(es, home, i);
    }
  }

  lemma DistinctDropped(es: seq<Entry<Binding>>, i: nat)
    requires Distinct(es) && i < |es|
    ensures Distinct(es[..i] + es[i + 1..])
  {
    var now := es[..i] + es[i + 1..];
    assert forall k :: 0 <= k < |now| ==> now[k] == es[if k < i then k else k + 1];
  }

  lemma HomesDropped(es: seq<Entry<Binding>>, home: Kind, i: nat)
    requires i < |es| && forall k :: 0 <= k < |es| ==> Home(es[k].combo.kind) == home
    ensures var now := es[..i] + es[i + 1..];
      forall k :: 0 <= k < |now| ==> Home(now[k].combo.kind) == home
  {
    var now := es[..i] + es[i + 1..];
    forall k | 0 <= k < |now|
      ensures Home(now[k].combo.kind) == home
    {
      assert now[k] == es[if k < i then k else k + 1];
    }
  }

  lemma LinkedDropped(bindings: seq<Binding>, es: seq<Entry<Binding>>, i: nat)
    requires Linked(bindings, es) && i < |es|
    ensures Linked(bindings[..i] + bindings[i + 1..], es[..i] + es[i + 1..])
  {
    var updated, now := bindings[..i] + bindings[i + 1..], es[..i] + es[i + 1..];
    forall k | 0 <= k < |updated|
      ensures updated[k].Ok() && now[k] == Entry(updated[k].Combination(), updated[k])
    {
      var j := if k < i then k else k + 1;
      assert updated[k] == bindings[j] && now[k] == es[j];
    }
  }

  /** What `binding_remove` does to a list's contents; the binding it is given is freed as well. */
  ghost predicate Removed(b: Binding, es: seq<Entry<Binding>>, now: seq<Entry<Binding>>, found: bool,
      freed: set<Binding>)
    reads b
  {
    && now == Drop(es, b.Combination()) && found == Has(es, b.Combination())
    && freed == Displaced(es, b.Combination()) + {b}
  }

  /** `binding_remove`: take the binding for the same combination off the list, if there is one. */
  method Remove(b: Binding, bindings: seq<Binding>, ghost es: seq<Entry<Binding>>, ghost home: Kind)
    returns (found: bool, updated: seq<Binding>, ghost now: seq<Entry<Binding>>, ghost freed: set<Binding>)
    requires b.Ok() && Home(b.kind) == home && Table(bindings, es, home) && b !in bindings
    ensures Removed(b, es, now, found, freed) && Table(updated, now, home)
  {
    var i := IndexOf(b, bindings, es);
    TableDropped(bindings, es, home, b.Combination());
    now := Drop(es, b.Combination());
    if i < |bindings| {
      freed := Free(Some(bindings[i]), {});
      freed := Free(Some(b), freed);
      return true, bindings[..i] + bindings[i + 1..], now, freed;
    }
    return false, bindings, now, Free(Some(b), {});
  }

  lemma TableWaits(bindings: seq<Binding>, es: seq<Entry<Binding>>, home: Kind, was: seq<KeyState>,
      done: seq<Entry<Binding>>)
    requires Table(bindings, es, home) && home in {Keysym, Keycode} && was == States(bindings) && done == []
    ensures Unique(bindings) && Waiting(bindings, 0, was, done)
  {
    forall i | 0 <= i < |bindings|
      ensures KeyboardState(was[i], Code in bindings[i].flags) && forall j :: 0 <= j < i ==> bindings[j] != bindings[i]
    {
      assert es[i].combo.kind == home;
      forall j | 0 <= j < i
        ensures bindings[j] != bindings[i]
      {
        DistinctAt(es, i, j);
      }
    }
  }

  lemma WaitsOn(first: seq<Binding>, second: seq<Binding>, firstWas: seq<KeyState>, keymap: seq<Key>,
      es: seq<Entry<Binding>>, was: seq<KeyState>, done: seq<Entry<Binding>>)
    requires Apart(first, second) && Finished(first, firstWas, keymap, es) && done == [] + es
    requires |was| == |second| && Waiting(second, 0, was, [])
    ensures Waiting(second, 0, was, done)
  {
    forall j | 0 <= j < |second|
      ensures second[j] !in Values(done) && KeyboardState(was[j], Code in second[j].flags)
    {
      assert second[j] !in Values<Binding>([]) && second[j] in second;
      forall e | e in done
        ensures e.value in first
      {
        var i :| 0 <= i < |es| && es[i] == e;
        assert e.value == first[i];
      }
    }
  }

  /** No binding is on two lists. */
  lemma TablesApart(first: seq<Binding>, second: seq<Binding>, es: seq<Entry<Binding>>, es2: seq<Entry<Binding>>,
      home: Kind, home2: Kind)
    requires Table(first, es, home) && Table(second, es2, home2) && home != home2
    ensures Apart(first, second)
  {
    forall b | b in first
      ensures b !in second
    {
      var i :| 0 <= i < |first| && first[i] == b;
      assert Home(es[i].combo.kind) == home && forall j :: 0 <= j < |es2| ==> Home(es2[j].combo.kind) == home2;
    }
  }

  ghost predicate Apart(first: seq<Binding>, second: seq<Binding>) {
    forall b :: b in first ==> b !in second
  }

  lemma JoinFinished(first: seq<Binding>, second: seq<Binding>, was: seq<KeyState>, was2: seq<KeyState>,
      es: seq<Entry<Binding>>, es2: seq<Entry<Binding>>, keymap: seq<Key>, r: Round<Binding>)
    requires Finished(first, was, keymap, es) && Finished(second, was2, keymap, es2) && r.done == [] + es + es2
    ensures Finished(first + second, was + was2, keymap, r.done)
  {
    assert [] + es + es2 == es + es2;
  }

  lemma HoldsTables(syms: seq<Binding>, codes: seq<Binding>, r: Round<Binding>)
    requires Holds(syms, codes, r)
    ensures Table(syms, r.syms, Keysym) && Table(codes, r.codes, Keycode)
  {
    GatheredAreLast(r.done, Keysym);
    GatheredAreLast(r.done, Keycode);
    forall i | 0 <= i < |r.syms|
      ensures Home(r.syms[i].combo.kind) == Keysym
    {
      SurvivorsOnly(r.done, Keysym, r.syms[i]);
    }
    forall i | 0 <= i < |r.codes|
      ensures Home(r.codes[i].combo.kind) == Keycode
    {
      SurvivorsOnly(r.done, Keycode, r.codes[i]);
    }
  }

  /** The second call of `translate_binding_list`, for bindings of which none went through before. */
  method TranslateSecond(ghost first: seq<Binding>, second: seq<Binding>, syms: seq<Binding>, codes: seq<Binding>,
      ghost r: Round<Binding>,
      keymap: seq<Key>, ghost was: seq<KeyState>, ghost was2: seq<KeyState>, ghost es: seq<Entry<Binding>>)
    returns (newSyms: seq<Binding>, newCodes: seq<Binding>, ghost now: Round<Binding>)
    requires Holds(syms, codes, r) && Finished(first, was, keymap, es) && r.done == [] + es && Apart(first, second)
    requires |was2| == |second| && Unique(second) && Waiting(second, 0, was2, [])
    requires TranslatedUpTo(second, was2, 0, keymap)
    modifies second
    ensures Table(newSyms, now.syms, Keysym) && Table(newCodes, now.codes, Keycode) && Consistent(now)
    ensures Finished(first + second, was + was2, keymap, now.done)
  {
    ghost var es2;
    WaitsOn(first, second, was, keymap, es, was2, r.done);
    newSyms, newCodes, now, es2 := TranslateList(second, syms, codes, r, keymap, was2);
    JoinFinished(first, second, was, was2, es, es2, keymap, now);
    HoldsTables(newSyms, newCodes, now);
  }

  /** The part of `translate_keysyms` for one mode: translate the bindings of both lists, and
      distribute them over two new lists. */
  method TranslateBoth(first: seq<Binding>, second: seq<Binding>, ghost firstWere: seq<Entry<Binding>>,
      ghost secondWere: seq<Entry<Binding>>,
      keymap: seq<Key>, ghost was: seq<KeyState>, ghost was2: seq<KeyState>)
    returns (syms: seq<Binding>, codes: seq<Binding>, ghost r: Round<Binding>)
    requires Table(first, firstWere, Keysym) && Table(second, secondWere, Keycode)
    requires was == States(first) && was2 == States(second)
    modifies first, second
    ensures Table(syms, r.syms, Keysym) && Table(codes, r.codes, Keycode) && Consistent(r)
    ensures Finished(first + second, was + was2, keymap, r.done)
  {
    hide Finished;
    ghost var es;
    TablesApart(first, second, firstWere, secondWere, Keysym, Keycode);
    TableWaits(first, firstWere, Keysym, was, []);
    TableWaits(second, secondWere, Keycode, was2, []);
    syms, codes, r := [], [], Round([], [], [], {});
    syms, codes, r, es := TranslateList(first, syms, codes, r, keymap, was);
    syms, codes, r := TranslateSecond(first, second, syms, codes, r, keymap, was, was2, es);
  }

  /** The same next to a list that shares no binding with the two. */
  method TranslateBeside(first: seq<Binding>, second: seq<Binding>, ghost third: seq<Binding>,
      ghost firstWere: seq<Entry<Binding>>,
      ghost secondWere: seq<Entry<Binding>>, ghost thirdAre: seq<Entry<Binding>>, keymap: seq<Key>)
    returns (syms: seq<Binding>, codes: seq<Binding>, ghost r: Round<Binding>)
    requires Table(first, firstWere, Keysym) && Table(second, secondWere, Keycode) && Table(third, thirdAre, Mousesym)
    modifies first, second
    ensures Table(syms, r.syms, Keysym) && Table(codes, r.codes, Keycode) && Table(third, thirdAre, Mousesym)
    ensures Consistent(r) && Finished(first + second, old(States(first) + States(second)), keymap, r.done)
  {
    TablesApart(third, first, thirdAre, firstWere, Mousesym, Keysym);
    TablesApart(third, second, thirdAre, secondWere, Mousesym, Keycode);
    syms, codes, r := TranslateBoth(first, second, firstWere, secondWere, keymap, States(first), States(second));
  }

  class Mode {
    var keysymBindings: seq<Binding>
    var keycodeBindings: seq<Binding>
    var mouseBindings: seq<Binding>
    // the contents of the lists
    ghost var keysyms: seq<Entry<Binding>>
    ghost var keycodes: seq<Entry<Binding>>
    ghost var mouse: seq<Entry<Binding>>

    ghost predicate Valid()
      reads this, keysymBindings, keycodeBindings, mouseBindings
    {
      && Table(keysymBindings, keysyms, Keysym) && Table(keycodeBindings, keycodes, Keycode)
      && Table(mouseBindings, mouse, Mousesym)
    }

    constructor ()
      ensures Valid() && keysymBindings == [] && keycodeBindings == [] && mouseBindings == []
    {
      keysymBindings, keycodeBindings, mouseBindings := [], [], [];
      keysyms, keycodes, mouse := [], [], [];
    }

    /** What is on the list for a kind of bindings. */
    ghost function TableFor(kind: Kind): seq<Entry<Binding>>
      reads this
    {
      match kind
      case Keycode => keycodes
      case Keysym => keysyms
      case _ => mouse
    }

    /** The list for a kind of bindings. */
    function ListFor(kind: Kind): seq<Binding>
      reads this
    {
      match kind
      case Keycode => keycodeBindings
      case Keysym => keysymBindings
      case _ => mouseBindings
    }

    ghost predicate Listed(b: Binding)
      reads this
    {
      b in keysymBindings || b in keycodeBindings || b in mouseBindings
    }

    /** Replace the list for a kind of bindings. */
    method SetList(kind: Kind, bindings: seq<Binding>, ghost es: seq<Entry<Binding>>)
      requires Valid() && Table(bindings, es, Home(kind))
      modifies this
      ensures Valid() && TableFor(kind) == es && ListFor(kind) == bindings
      ensures kind != Keysym ==> keysymBindings == old(keysymBindings) && keysyms == old(keysyms)
      ensures kind != Keycode ==> keycodeBindings == old(keycodeBindings) && keycodes == old(keycodes)
      ensures kind in {Keysym, Keycode} ==> mouseBindings == old(mouseBindings) && mouse == old(mouse)
    {
      match kind
      case Keycode => keycodeBindings, keycodes := bindings, es;
      case Keysym => keysymBindings, keysyms := bindings, es;
      case _ => mouseBindings, mouse := bindings, es;
    }

    /** `binding_add` on the list for the binding's type. */
    method Bind(b: Binding) returns (ghost freed: set<Binding>)
      requires Valid() && b.Ok() && !Listed(b)
      modifies this
      ensures Valid() && TableFor(b.kind) == Put(old(TableFor(b.kind)), Entry(b.Combination(), b))
      ensures freed == Displaced(old(TableFor(b.kind)), b.Combination())
      ensures b.kind != Keysym ==> keysymBindings == old(keysymBindings) && keysyms == old(keysyms)
      ensures b.kind != Keycode ==> keycodeBindings == old(keycodeBindings) && keycodes == old(keycodes)
      ensures b.kind in {Keysym, Keycode} ==> mouseBindings == old(mouseBindings) && mouse == old(mouse)
    {
      var updated;
      ghost var now;
      updated, now, freed := Add(b, ListFor(b.kind), TableFor(b.kind), Home(b.kind));
      SetList(b.kind, updated, now);
    }

    /** `binding_remove` on the list for the binding's type. */
    method Unbind(b: Binding) returns (found: bool, ghost freed: set<Binding>)
      requires Valid() && b.Ok() && !Listed(b)
      modifies this
      ensures Valid() && Removed(b, old(TableFor(b.kind)), TableFor(b.kind), found, freed)
      ensures b.kind != Keysym ==> keysymBindings == old(keysymBindings) && keysyms == old(keysyms)
      ensures b.kind != Keycode ==> keycodeBindings == old(keycodeBindings) && keycodes == old(keycodes)
      ensures b.kind in {Keysym, Keycode} ==> mouseBindings == old(mouseBindings) && mouse == old(mouse)
    {
      var updated;
      ghost var now;
      found, updated, now, freed := Remove(b, ListFor(b.kind), TableFor(b.kind), Home(b.kind));
      SetList(b.kind, updated, now);
    }

    method SetKeyboardLists(syms: seq<Binding>, codes: seq<Binding>, ghost symsAre: seq<Entry<Binding>>,
        ghost codesAre: seq<Entry<Binding>>)
      requires Table(syms, symsAre, Keysym) && Table(codes, codesAre, Keycode) && Table(mouseBindings, mouse, Mousesym)
      modifies this`keysymBindings, this`keycodeBindings, this`keysyms, this`keycodes
      ensures Valid() && keysymBindings == syms && keycodeBindings == codes
      ensures keysyms == symsAre && keycodes == codesAre
    {
      keysymBindings, keycodeBindings, keysyms, keycodes := syms, codes, symsAre, codesAre;
    }

    /** `translate_keysyms` for one mode: its two keyboard lists are replaced by new ones. */
    method TranslateKeysyms(keymap: seq<Key>) returns (ghost r: Round<Binding>)
      requires Valid()
      modifies this`keysymBindings, this`keycodeBindings, this`keysyms, this`keycodes, keysymBindings, keycodeBindings
      ensures Valid() && Consistent(r) && keysyms == r.syms && keycodes == r.codes
      ensures Finished(old(keysymBindings) + old(keycodeBindings),
        old(States(keysymBindings) + States(keycodeBindings)), keymap, r.done)
    {
      hide Consistent, Finished, Table;
      var newSyms, newCodes;
      newSyms, newCodes, r :=
        TranslateBeside(keysymBindings, keycodeBindings, mouseBindings, keysyms, keycodes, mouse, keymap);
      SetKeyboardLists(newSyms, newCodes, r.syms, r.codes);
    }
  }
}
