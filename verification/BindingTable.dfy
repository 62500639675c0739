/** What makes two bindings the same, and a list of bindings seen as a finite map. */
module BindingTable {
  import opened KeyTranslation

  datatype Flag = Release | Locked | Border | Contents | Titlebar | Code | Inhibited | NoRepeat

  /** The flags that tell two bindings for the same keys apart. */
  const CONFLICTING := {Release, Border, Contents, Titlebar, Locked, Inhibited}

  /** Bindings that differ in no other flag than those for translation and repetition conflict. */
  lemma ConflictingIs(a: set<Flag>, b: set<Flag>)
    ensures a * CONFLICTING == b * CONFLICTING <==> forall f :: (f in a <==> f !in b) ==> f in {Code, NoRepeat}
  {
    if a * CONFLICTING == b * CONFLICTING {
      forall f | f in a <==> f !in b
        ensures f in {Code, NoRepeat}
      {
        assert f in a * CONFLICTING <==> f in b * CONFLICTING;
        AllFlags(f);
      }
    }
  }

  lemma AllFlags(f: Flag)
    ensures f in CONFLICTING || f in {Code, NoRepeat}
  {
    match f
    case Release =>
    case Locked =>
    case Border =>
    case Contents =>
    case Titlebar =>
    case Code =>
    case Inhibited =>
    case NoRepeat =>
  }

  /** What a binding is bound to. Two bindings with the same combination conflict. */
  datatype Combo = Combo(input: string, kind: Kind, flags: set<Flag>, group: int, modifiers: nat, keys: multiset<nat>)

  datatype Entry<V> = Entry(combo: Combo, value: V)

  /** The index of the first entry for a combination, or the length. */
  function Find<V>(s: seq<Entry<V>>, combo: Combo): (i: nat)
    ensures i <= |s| && (i < |s| ==> s[i].combo == combo)
    ensures forall j :: 0 <= j < i ==> s[j].combo != combo
  {
    if s == [] || s[0].combo == combo then 0 else 1 + Find(s[1..], combo)
  }

  ghost predicate Has<V>(s: seq<Entry<V>>, combo: Combo) {
    Find(s, combo) < |s|
  }

  /** Replace the entry with the same combination, or append. */
  function Put<V>(s: seq<Entry<V>>, e: Entry<V>): seq<Entry<V>> {
    var i := Find(s, e.combo);
    if i < |s| then s[i := e] else s + [e]
  }

  function Drop<V>(s: seq<Entry<V>>, combo: Combo): seq<Entry<V>> {
    var i := Find(s, combo);
    if i < |s| then s[..i] + s[i + 1..] else s
  }

  ghost predicate Distinct<V>(s: seq<Entry<V>>) {
    forall i, j :: 0 <= i < j < |s| ==> s[i].combo != s[j].combo
  }

  lemma DistinctAt<V>(s: seq<Entry<V>>, i: nat, j: nat)
    requires Distinct(s) && i < |s| && j < |s| && i != j
    ensures s[i].combo != s[j].combo
  {
  }

  ghost function AsMap<V>(s: seq<Entry<V>>): (m: map<Combo, V>)
    ensures forall c :: c in m <==> exists i :: 0 <= i < |s| && s[i].combo == c
  {
    if s == [] then map[] else AsMap(s[..|s| - 1])[s[|s| - 1].combo := s[|s| - 1].value]
  }

  lemma {:induction false} AsMapAt<V>(s: seq<Entry<V>>, i: nat)
    requires Distinct(s) && i < |s|
    ensures AsMap(s)[s[i].combo] == s[i].value
  {
    if i < |s| - 1 {
      AsMapAt(s[..|s| - 1], i);
    }
  }

  lemma InMap<V>(s: seq<Entry<V>>, e: Entry<V>)
    requires Distinct(s) && e in s
    ensures e.combo in AsMap(s) && AsMap(s)[e.combo] == e.value
  {
    var i :| 0 <= i < |s| && s[i] == e;
    AsMapAt(s, i);
  }

  lemma MapEntry<V>(s: seq<Entry<V>>, combo: Combo) returns (e: Entry<V>)
    requires combo in AsMap(s)
    ensures e in s && e.combo == combo
  {
    var i :| 0 <= i < |s| && s[i].combo == combo;
    e := s[i];
  }

  /** Inserting or updating keeps combinations distinct and is an update of the map. */
  lemma PutIsUpdate<V>(s: seq<Entry<V>>, e: Entry<V>)
    requires Distinct(s)
    ensures Distinct(Put(s, e)) && AsMap(Put(s, e)) == AsMap(s)[e.combo := e.value]
  {
    var t, i := Put(s, e), Find(s, e.combo);
    assert forall j :: 0 <= j < |s| && j != i ==> t[j] == s[j];
    assert t[i] == e;
    assert Distinct(t);
    SameMap(s, t, e);
  }

  lemma SameMap<V>(s: seq<Entry<V>>, t: seq<Entry<V>>, e: Entry<V>)
    requires Distinct(s) && Distinct(t) && e in t
    requires forall x :: x in s + t && x.combo != e.combo ==> x in s && x in t
    ensures AsMap(t) == AsMap(s)[e.combo := e.value]
  {
    var m := AsMap(s)[e.combo := e.value];
    forall c | c in m || c in AsMap(t)
      ensures c in m && c in AsMap(t) && m[c] == AsMap(t)[c]
    {
      var x := e;
      if c != e.combo {
        x := MapEntry(if c in m then s else t, c);
      }
      InMap(t, x);
      if c != e.combo {
        InMap(s, x);
      }
    }
  }

  lemma DropMembers<V>(s: seq<Entry<V>>, combo: Combo)
    requires Distinct(s)
    ensures Distinct(Drop(s, combo))
    ensures forall x :: x in s + Drop(s, combo) ==> (x in Drop(s, combo) <==> x in s && x.combo != combo)
  {
    var t, i := Drop(s, combo), Find(s, combo);
    assert forall j :: 0 <= j < |t| ==> t[j] == s[if j < i then j else j + 1];
    forall x | x in s && x.combo != combo
      ensures x in t
    {
      var j :| 0 <= j < |s| && s[j] == x;
      assert t[if j < i then j else j - 1] == x;
    }
  }

  /** Deleting keeps combinations distinct and takes exactly one of them out of the map. */
  lemma DropIsRemoval<V>(s: seq<Entry<V>>, combo: Combo)
    requires Distinct(s)
    ensures Distinct(Drop(s, combo)) && AsMap(Drop(s, combo)) == AsMap(s) - {combo}
  {
    var t, m := Drop(s, combo), AsMap(s) - {combo};
    DropMembers(s, combo);
    forall c | c in m || c in AsMap(t)
      ensures c in m && c in AsMap(t) && m[c] == AsMap(t)[c]
    {
      var x := MapEntry(if c in m then s else t, c);
      InMap(s, x);
      InMap(t, x);
    }
  }

  /** No later entry is for the same combination. */
  ghost predicate IsLast<V>(es: seq<Entry<V>>, i: nat)
    requires i < |es|
  {
    forall j :: i < j < |es| ==> es[j].combo != es[i].combo
  }

  ghost predicate Survives<V>(es: seq<Entry<V>>, e: Entry<V>) {
    exists i: nat :: i < |es| && es[i] == e && IsLast(es, i)
  }

  lemma SurvivesStep<V>(es: seq<Entry<V>>, last: Entry<V>, e: Entry<V>)
    ensures Survives(es + [last], e) <==> e == last || (Survives(es, e) && e.combo != last.combo)
  {
    var all := es + [last];
    if e == last {
      assert all[|es|] == e && IsLast(all, |es|);
    } else {
      if Survives(es, e) && e.combo != last.combo {
        var i: nat :| i < |es| && es[i] == e && IsLast(es, i);
        assert all[i] == e && IsLast(all, i);
      }
      if Survives(all, e) {
        var i: nat :| i < |all| && all[i] == e && IsLast(all, i);
        assert all[|es|] == last && forall j :: 0 <= j < |es| ==> all[j] == es[j];
        assert es[i] == e && IsLast(es, i);
      }
    }
  }

  lemma PutMembers<V>(s: seq<Entry<V>>, e: Entry<V>, x: Entry<V>)
    requires Distinct(s)
    ensures x in Put(s, e) <==> x == e || (x in s && x.combo != e.combo)
  {
    var t, i := Put(s, e), Find(s, e.combo);
    assert t[i] == e;
    if x in s && x.combo != e.combo {
      var j :| 0 <= j < |s| && s[j] == x;
      assert t[j] == x;
    }
  }

  /** What lands on the list for one kind when entries are distributed over new lists by kind. */
  ghost function Gathered<V>(es: seq<Entry<V>>, kind: Kind): seq<Entry<V>> {
    if es == [] then []
    else if es[|es| - 1].combo.kind != kind then Gathered(es[..|es| - 1], kind)
    else Put(Gathered(es[..|es| - 1], kind), es[|es| - 1])
  }

  lemma GatherStep<V>(es: seq<Entry<V>>, e: Entry<V>, kind: Kind)
    ensures e.combo.kind != kind ==> Gathered(es + [e], kind) == Gathered(es, kind)
    ensures e.combo.kind == kind ==> Gathered(es + [e], kind) == Put(Gathered(es, kind), e)
  {
    assert (es + [e])[..|es|] == es;
  }

  /** Of the entries for one combination the last one wins, and no entry is kept twice. */
  lemma {:induction false} GatheredAreLast<V>(es: seq<Entry<V>>, kind: Kind)
    ensures Distinct(Gathered(es, kind))
    ensures forall e :: e in Gathered(es, kind) + es ==>
      (e in Gathered(es, kind) <==> Survives(es, e) && e.combo.kind == kind)
  {
    if es != [] {
      var init, last := es[..|es| - 1], es[|es| - 1];
      assert es == init + [last];
      GatheredAreLast(init, kind);
      GatherStep(init, last, kind);
      PutIsUpdate(Gathered(init, kind), last);
      forall e | e in Gathered(es, kind) + es
        ensures e in Gathered(es, kind) <==> Survives(es, e) && e.combo.kind == kind
      {
        PutMembers(Gathered(init, kind), last, e);
        SurvivesStep(init, last, e);
      }
    }
  }

  lemma SurvivorsOnly<V>(es: seq<Entry<V>>, kind: Kind, e: Entry<V>)
    requires e in Gathered(es, kind)
    ensures e in es && e.combo.kind == kind
  {
    GatheredAreLast(es, kind);
  }

  // ---- distribution of all keyboard bindings over new lists

  /** The bindings that went through, the two new lists, and the bindings that were freed. */
  datatype Round<V> = Round(done: seq<Entry<V>>, syms: seq<Entry<V>>, codes: seq<Entry<V>>, freed: set<V>)

  ghost function Values<V>(es: seq<Entry<V>>): set<V> {
    set e | e in es :: e.value
  }

  /** The binding that has to make room for one with this combination. */
  ghost function Displaced<V>(s: seq<Entry<V>>, combo: Combo): set<V> {
    var i := Find(s, combo);
    if i < |s| then {s[i].value} else {}
  }

  ghost function Distribute<V>(r: Round<V>, e: Entry<V>): Round<V> {
    if e.combo.kind == Keysym then Round(r.done + [e], Put(r.syms, e), r.codes, r.freed + Displaced(r.syms, e.combo))
    else Round(r.done + [e], r.syms, Put(r.codes, e), r.freed + Displaced(r.codes, e.combo))
  }

  ghost predicate Once<V>(es: seq<Entry<V>>) {
    forall i, j :: 0 <= i < j < |es| ==> es[i].value != es[j].value
  }

  /** Every binding that went through is on exactly one of the new lists or freed. */
  ghost predicate Consistent<V>(r: Round<V>) {
    && Once(r.done) && (forall e :: e in r.done ==> e.combo.kind in {Keysym, Keycode})
    && r.syms == Gathered(r.done, Keysym) && r.codes == Gathered(r.done, Keycode)
    && r.freed == Values(r.done) - Values(r.syms) - Values(r.codes)
  }

  lemma OnceValue<V>(es: seq<Entry<V>>, x: Entry<V>, y: Entry<V>)
    requires Once(es) && x in es && y in es && x.value == y.value
    ensures x == y
  {
  }

  /** Who makes room leaves the list for good. */
  lemma PutValues<V>(all: seq<Entry<V>>, s: seq<Entry<V>>, e: Entry<V>)
    requires Distinct(s) && Once(all) && e in all && forall x :: x in s ==> x in all && x != e
    ensures Values(Put(s, e)) == Values(s) - Displaced(s, e.combo) + {e.value}
  {
    var i := Find(s, e.combo);
    forall v
      ensures v in Values(Put(s, e)) <==> v in Values(s) - Displaced(s, e.combo) + {e.value}
    {
      if v in Values(Put(s, e)) {
        var x :| x in Put(s, e) && x.value == v;
        PutMembers(s, e, x);
        if x != e && i < |s| && s[i].value == v {
          OnceValue(all, x, s[i]);
        }
      }
      if v in Values(s) - Displaced(s, e.combo) {
        var x :| x in s && x.value == v;
        PutMembers(s, e, x);
      }
      PutMembers(s, e, e);
    }
  }

  /** A binding is on no more than one of the new lists. */
  lemma ListsApart<V>(es: seq<Entry<V>>)
    requires Once(es)
    ensures Values(Gathered(es, Keysym)) !! Values(Gathered(es, Keycode))
    ensures Values(Gathered(es, Keysym)) <= Values(es) && Values(Gathered(es, Keycode)) <= Values(es)
  {
    forall x, y | x in Gathered(es, Keysym) && y in Gathered(es, Keycode)
      ensures x in es && y in es && x.value != y.value
    {
      SurvivorsOnly(es, Keysym, x);
      SurvivorsOnly(es, Keycode, y);
    }
    forall kind, x | x in Gathered(es, kind)
      ensures x in es
    {
      SurvivorsOnly(es, kind, x);
    }
  }

  lemma DisplacedListed<V>(s: seq<Entry<V>>, combo: Combo)
    ensures Displaced(s, combo) <= Values(s)
  {
  }

  lemma SetStep<V>(done: set<V>, mine: set<V>, others: set<V>, displaced: set<V>, v: V)
    requires displaced <= mine <= done && others <= done && mine !! others && v !in done
    ensures (done - mine - others) + displaced == done + {v} - (mine - displaced + {v}) - others
    ensures (done - others - mine) + displaced == done + {v} - others - (mine - displaced + {v})
    ensures displaced !! done - mine - others && displaced !! done - others - mine
  {
  }

  /** Putting one more binding on its new list keeps everything accounted for, and what is freed
      was not freed before. */
  lemma DistributeConsistent<V>(r: Round<V>, e: Entry<V>)
    requires Consistent(r) && e.value !in Values(r.done) && e.combo.kind in {Keysym, Keycode}
    ensures Consistent(Distribute(r, e))
    ensures Displaced(if e.combo.kind == Keysym then r.syms else r.codes, e.combo) !! r.freed
  {
    var mine := if e.combo.kind == Keysym then r.syms else r.codes;
    var others := if e.combo.kind == Keysym then r.codes else r.syms;
    ListsApart(r.done);
    DisplacedListed(mine, e.combo);
    GatheredAreLast(r.done, e.combo.kind);
    GatherStep(r.done, e, Keysym);
    GatherStep(r.done, e, Keycode);
    OnceNext(r.done, e);
    forall x | x in mine
      ensures x in r.done + [e] && x != e
    {
      SurvivorsOnly(r.done, e.combo.kind, x);
    }
    PutValues(r.done + [e], mine, e);
    SetStep(Values(r.done), Values(mine), Values(others), Displaced(mine, e.combo), e.value);
  }

  lemma OnceNext<V>(es: seq<Entry<V>>, e: Entry<V>)
    requires Once(es) && e.value !in Values(es)
    ensures Once(es + [e]) && Values(es + [e]) == Values(es) + {e.value}
  {
    forall i | 0 <= i < |es|
      ensures es[i].value != e.value
    {
      assert es[i] in es;
    }
    assert forall x :: x in es + [e] <==> x in es || x == e;
  }

  /** After all keyboard bindings went through: exactly those are freed that a later binding for the
      same combination replaced. */
  lemma FreedIff<V>(r: Round<V>, i: nat)
    requires Consistent(r) && i < |r.done|
    ensures r.done[i].value in r.freed <==> !IsLast(r.done, i)
  {
    var e := r.done[i];
    GatheredAreLast(r.done, Keysym);
    GatheredAreLast(r.done, Keycode);
    ListsApart(r.done);
    assert e in r.done && e.value in Values(r.done);
    if e.value !in r.freed {
      var x :| x in r.syms + r.codes && x.value == e.value;
      SurvivorsOnly(r.done, x.combo.kind, x);
      OnceValue(r.done, x, e);
      var j: nat :| j < |r.done| && r.done[j] == e && IsLast(r.done, j);
      assert j == i;
    }
    if IsLast(r.done, i) {
      assert Survives(r.done, e);
    }
  }
}
