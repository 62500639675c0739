/** Reading and printing gestures. */
module GestureText {
  import opened Options
  import opened SplitString

  datatype GestureType = NoGesture | Hold | Pinch | Swipe

  /** `directions` holds the set bits of a 32-bit field; the eight directions are bits 0 to 7. */
  datatype Gesture = Gesture(kind: GestureType, fingers: nat, directions: set<nat>)

  function TypeName(kind: GestureType): string {
    match kind
    case NoGesture => "none"
    case Hold => "hold"
    case Pinch => "pinch"
    case Swipe => "swipe"
  }

  function TypeOf(name: string): Option<GestureType> {
    if name == "hold" then Some(Hold)
    else if name == "pinch" then Some(Pinch)
    else if name == "swipe" then Some(Swipe)
    else None
  }

  function DirectionName(bit: nat): string {
    match bit
    case 0 => "up"
    case 1 => "down"
    case 2 => "left"
    case 3 => "right"
    case 4 => "inward"
    case 5 => "outward"
    case 6 => "clockwise"
    case 7 => "counterclockwise"
    case _ => "unknown"
  }

  function DirectionOf(name: string): Option<nat> {
    if name == "up" then Some(0)
    else if name == "down" then Some(1)
    else if name == "left" then Some(2)
    else if name == "right" then Some(3)
    else if name == "inward" then Some(4)
    else if name == "outward" then Some(5)
    else if name == "clockwise" then Some(6)
    else if name == "counterclockwise" then Some(7)
    else None
  }

  lemma DirectionNames(bit: nat)
    ensures Plain(DirectionName(bit), '+') && Plain(DirectionName(bit), ':') && DirectionName(bit) != "any"
    ensures DirectionOf(DirectionName(bit)) == if bit < 8 then Some(bit) else None
  {
  }

  lemma TypeNames(kind: GestureType)
    ensures Plain(TypeName(kind), ':') && TypeOf(TypeName(kind)) == if kind == NoGesture then None else Some(kind)
  {
  }

  // ---- printing

  /** The names of the set bits below `n`, lowest first. */
  function Names(bits: set<nat>, n: nat): seq<string> {
    if n == 0 then []
    else Names(bits, n - 1) + if n - 1 in bits then [DirectionName(n - 1)] else []
  }

  function DirectionsText(bits: set<nat>): string {
    if Names(bits, 32) == [] then "any" else JoinWith(Names(bits, 32), '+')
  }

  /** `%u`. */
  function Decimal(n: nat): string {
    if n < 10 then [DIGITS[n]] else Decimal(n / 10) + [DIGITS[n % 10]]
  }

  const DIGITS := "0123456789"

  function Text(g: Gesture): string {
    TypeName(g.kind) + ":" + Decimal(g.fingers) + ":" + DirectionsText(g.directions)
  }

  /** `gesture_directions_to_string`. */
  method PrintDirections(bits: set<nat>) returns (text: string)
    ensures text == DirectionsText(bits)
  {
    text := "";
    var empty := true;
    for bit := 0 to 32
      invariant empty <==> Names(bits, bit) == []
      invariant text == JoinWith(Names(bits, bit), '+')
    {
      ghost var names := Names(bits, bit);
      assert Names(bits, bit + 1) == names + if bit in bits then [DirectionName(bit)] else [];
      if bit in bits {
        assert (names + [DirectionName(bit)])[..|names|] == names;
        assert Names(bits, bit + 1)[|names|] == DirectionName(bit);
        if empty {
          text := DirectionName(bit);
        } else {
          text := text + "+" + DirectionName(bit);
        }
        empty := false;
      } else {
        assert Names(bits, bit + 1) == names;
      }
    }
    if empty {
      text := "any";
    }
  }

  /** `gesture_to_string`: three parts, from which the parser gets the gesture back if it can be written
      at all, and nothing otherwise. */
  method ToString(g: Gesture) returns (text: string)
    ensures text == Text(g) && Split(text, ':') == [TypeName(g.kind), Decimal(g.fingers), DirectionsText(g.directions)]
    ensures (forall b :: b in g.directions ==> b < 32) ==> Parsed(text) == if Writable(g) then Some(g) else None
  {
    var directions := PrintDirections(g.directions);
    text := TypeName(g.kind) + ":" + Decimal(g.fingers) + ":" + directions;
    TextSplits(g);
    if forall b :: b in g.directions ==> b < 32 {
      RoundTripIff(g);
    }
  }

  // ---- reading

  /** The directions a list of words stands for. */
  function DirectionsOf(words: seq<string>): Option<set<nat>> {
    if words == [] then Some({})
    else
      var init, last := DirectionsOf(words[..|words| - 1]), words[|words| - 1];
      if init == None then None
      else if last == "any" then init
      else if DirectionOf(last) == None then None
      else Some(init.value + {DirectionOf(last).value})
  }

  predicate IsCount(word: string) {
    |word| == 1 && '1' <= word[0] <= '9'
  }

  function CountOf(word: string): nat
    requires IsCount(word)
  {
    (word[0] - '0') as nat
  }

  /** The gesture of a type with the arguments after the type. */
  function WithArguments(kind: GestureType, args: seq<string>): Option<Gesture> {
    if |args| == 0 then Some(Gesture(kind, 0, {}))
    else if |args| == 1 && IsCount(args[0]) then Some(Gesture(kind, CountOf(args[0]), {}))
    else if |args| == 1 then WithDirections(kind, 0, args[0])
    else if |args| == 2 && IsCount(args[0]) then WithDirections(kind, CountOf(args[0]), args[1])
    else None
  }

  function WithDirections(kind: GestureType, fingers: nat, text: string): Option<Gesture> {
    var directions := DirectionsOf(Split(text, '+'));
    if directions == None then None else Some(Gesture(kind, fingers, directions.value))
  }

  function Parsed(input: string): Option<Gesture> {
    var split := Split(input, ':');
    if split == [] || TypeOf(split[0]) == None then None
    else WithArguments(TypeOf(split[0]).value, split[1..])
  }

  /** The loop over the directions in `gesture_parse`. */
  method ParseDirections(words: seq<string>) returns (ok: bool, directions: set<nat>)
    ensures ok <==> DirectionsOf(words) != None
    ensures ok ==> DirectionsOf(words) == Some(directions)
  {
    directions := {};
    for i := 0 to |words|
      invariant DirectionsOf(words[..i]) == Some(directions)
    {
      assert words[..i + 1][..i] == words[..i];
      if words[i] == "any" {
        continue;
      }
      var bit := DirectionOf(words[i]);
      if bit == None {
        FirstBadWord(words, i + 1);
        return false, {};
      }
      directions := directions + {bit.value};
    }
    assert words[..|words|] == words;
    return true, directions;
  }

  lemma {:induction false} FirstBadWord(words: seq<string>, i: nat)
    requires i <= |words| && DirectionsOf(words[..i]) == None
    ensures DirectionsOf(words) == None
  {
    if i < |words| {
      assert words[..|words| - 1][..i] == words[..i];
      FirstBadWord(words[..|words| - 1], i);
    } else {
      assert words[..i] == words;
    }
  }

  /** `gesture_parse`. */
  method Parse(input: string) returns (output: Option<Gesture>)
    ensures output == Parsed(input)
  {
    var split := SplitString.Split(input, ':');
    if |split| < 1 || |split| > 3 {
      return None;
    }
    var kind := TypeOf(split[0]);
    if kind == None {
      return None;
    }
    var fingers, directions := 0, {};
    if |split| > 1 {
      var next := Some(split[1]);
      if |next.value| == 1 && '1' <= next.value[0] <= '9' {
        fingers := (next.value[0] - '0') as nat;
        next := if |split| == 3 then Some(split[2]) else None;
      } else if |split| == 3 {
        return None;
      }
      if next != None {
        var ok: bool;
        ok, directions := ParseDirections(SplitString.Split(next.value, '+'));
        if !ok {
          return None;
        }
      }
    }
    return Some(Gesture(kind.value, fingers, directions));
  }

  // ---- the round trip

  lemma {:induction false} NamesArePlain(bits: set<nat>, n: nat, i: nat)
    requires i < |Names(bits, n)|
    ensures Plain(Names(bits, n)[i], '+') && Plain(Names(bits, n)[i], ':')
  {
    DirectionNames(n - 1);
    if i < |Names(bits, n - 1)| {
      NamesArePlain(bits, n - 1, i);
    }
  }

  function Below(bits: set<nat>, n: nat): set<nat> {
    set b | b in bits && b < n
  }

  ghost predicate Known(bits: set<nat>, n: nat) {
    forall b :: b in bits && b < n ==> b < 8
  }

  /** Reading the printed directions gives them back, unless one of them has no name. */
  lemma {:induction false} NamesRoundTrip(bits: set<nat>, n: nat)
    ensures DirectionsOf(Names(bits, n)) == if Known(bits, n) then Some(Below(bits, n)) else None
  {
    if n == 0 {
      assert Below(bits, 0) == {};
    } else {
      NamesRoundTrip(bits, n - 1);
      assert Known(bits, n) <==> Known(bits, n - 1) && (n - 1 in bits ==> n - 1 < 8);
      DirectionNames(n - 1);
      var names := Names(bits, n - 1);
      if n - 1 in bits {
        assert (names + [DirectionName(n - 1)])[..|names|] == names;
        assert Below(bits, n) == Below(bits, n - 1) + {n - 1};
      } else {
        assert Names(bits, n) == names && Below(bits, n) == Below(bits, n - 1);
      }
    }
  }

  lemma {:induction false} DecimalText(n: nat)
    ensures Plain(Decimal(n), ':') && (IsCount(Decimal(n)) <==> 1 <= n <= 9)
    ensures 1 <= n <= 9 ==> CountOf(Decimal(n)) == n
  {
    if n >= 10 {
      DecimalText(n / 10);
    }
  }

  lemma DirectionsTextIsPlain(bits: set<nat>)
    ensures Plain(DirectionsText(bits), ':')
  {
    var names := Names(bits, 32);
    forall i | 0 <= i < |names|
      ensures Plain(names[i], ':')
    {
      NamesArePlain(bits, 32, i);
    }
    if names != [] {
      JoinedPlain(names);
    }
  }

  lemma {:induction false} JoinedPlain(ts: seq<string>)
    requires ts != [] && forall i :: 0 <= i < |ts| ==> Plain(ts[i], ':')
    ensures Plain(JoinWith(ts, '+'), ':')
  {
    if |ts| > 1 {
      JoinedPlain(ts[..|ts| - 1]);
    }
  }

  lemma TextSplits(g: Gesture)
    ensures Split(Text(g), ':') == [TypeName(g.kind), Decimal(g.fingers), DirectionsText(g.directions)]
  {
    TypeNames(g.kind);
    DecimalText(g.fingers);
    DirectionsTextIsPlain(g.directions);
    var parts := [TypeName(g.kind), Decimal(g.fingers), DirectionsText(g.directions)];
    SplitJoined(parts, ':');
    assert parts[..2][..1] == [TypeName(g.kind)] && parts[..2][1] == Decimal(g.fingers);
    assert JoinWith(parts[..2], ':') == TypeName(g.kind) + ":" + Decimal(g.fingers);
  }

  lemma DirectionsRoundTrip(bits: set<nat>)
    requires forall b :: b in bits ==> b < 32
    ensures DirectionsOf(Split(DirectionsText(bits), '+'))
         == if forall b :: b in bits ==> b < 8 then Some(bits) else None
  {
    var names := Names(bits, 32);
    NamesRoundTrip(bits, 32);
    assert Below(bits, 32) == bits;
    if names == [] {
      SplitPlain("any", '+');
      assert DirectionsOf(["any"]) == DirectionsOf([]);
    } else {
      forall i | 0 <= i < |names|
        ensures Plain(names[i], '+')
      {
        NamesArePlain(bits, 32, i);
      }
      SplitJoined(names, '+');
    }
  }

  /** It has a type, one to nine fingers and only known directions. */
  predicate Writable(g: Gesture) {
    g.kind != NoGesture && 1 <= g.fingers <= 9 && forall b :: b in g.directions ==> b < 8
  }

  /** A printed gesture is read back, as what it was, exactly if it is writable; any other printed gesture
      is refused. */
  lemma RoundTripIff(g: Gesture)
    requires forall b :: b in g.directions ==> b < 32
    ensures Parsed(Text(g)) == if Writable(g) then Some(g) else None
  {
    TextSplits(g);
    TypeNames(g.kind);
    DecimalText(g.fingers);
    DirectionsRoundTrip(g.directions);
  }

  // ---- which texts are gestures

  lemma DirectionOfIff(word: string, bit: nat)
    ensures DirectionOf(word) == Some(bit) <==> bit < 8 && word == DirectionName(bit)
  {
    DirectionNames(bit);
  }

  predicate IsDirection(word: string) {
    word == "any" || exists b :: 0 <= b < 8 && word == DirectionName(b)
  }

  function Named(words: seq<string>): set<nat> {
    set b | 0 <= b < 8 && DirectionName(b) in words
  }

  lemma NamedNext(words: seq<string>, last: string)
    ensures forall b :: b in Named(words + [last]) <==> b in Named(words) || (0 <= b < 8 && last == DirectionName(b))
  {
  }

  /** Words stand for directions exactly if each is the name of one or `any`, and then for those that are named. */
  lemma {:induction false} DirectionsOfIs(words: seq<string>)
    ensures DirectionsOf(words) == if forall w :: w in words ==> IsDirection(w) then Some(Named(words)) else None
  {
    hide DirectionName, DirectionOf;
    if words == [] {
      assert Named([]) == {};
    } else {
      var init, last := words[..|words| - 1], words[|words| - 1];
      DirectionsOfIs(init);
      assert words == init + [last] && last in words;
      assert forall w :: w in words <==> w in init || w == last;
      NamedNext(init, last);
      LastDirection(init, last);
    }
  }

  lemma LastDirection(init: seq<string>, last: string)
    ensures IsDirection(last) <==> last == "any" || DirectionOf(last) != None
    ensures last == "any" ==> Named(init + [last]) == Named(init)
    ensures last != "any" && DirectionOf(last) != None ==>
      Named(init + [last]) == Named(init) + {DirectionOf(last).value}
  {
    hide DirectionName, DirectionOf;
    NamedNext(init, last);
    forall b | 0 <= b < 8
      ensures DirectionOf(last) == Some(b) <==> last == DirectionName(b)
      ensures DirectionName(b) != "any"
    {
      DirectionOfIff(last, b);
      DirectionNames(b);
    }
    if DirectionOf(last) != None {
      DirectionOfIff(last, DirectionOf(last).value);
    }
  }

  /** The last part of a gesture: directions with plus signs between them. */
  predicate SpellsDirections(text: string, bits: set<nat>) {
    var words := Split(text, '+');
    (forall w :: w in words ==> IsDirection(w)) && bits == Named(words)
  }

  predicate SpellsCount(word: string, fingers: nat) {
    1 <= fingers <= 9 && word == Decimal(fingers)
  }

  /** What may follow the type: a finger count, or directions, or both in this order. */
  predicate SpellsArguments(args: seq<string>, g: Gesture) {
    match |args|
    case 0 => g.fingers == 0 && g.directions == {}
    case 1 =>
      if exists n :: 0 <= n <= 9 && SpellsCount(args[0], n) then SpellsCount(args[0], g.fingers) && g.directions == {}
      else g.fingers == 0 && SpellsDirections(args[0], g.directions)
    case 2 => SpellsCount(args[0], g.fingers) && SpellsDirections(args[1], g.directions)
    case _ => false
  }

  /** The grammar. */
  predicate Spells(parts: seq<string>, g: Gesture) {
    g.kind != NoGesture && parts != [] && parts[0] == TypeName(g.kind) && SpellsArguments(parts[1..], g)
  }

  lemma CountIff(word: string, n: nat)
    ensures SpellsCount(word, n) <==> IsCount(word) && CountOf(word) == n
  {
    DecimalText(n);
  }

  lemma HasCount(word: string)
    ensures IsCount(word) <==> exists n :: 0 <= n <= 9 && SpellsCount(word, n)
  {
    hide SpellsCount;
    if IsCount(word) {
      CountIff(word, CountOf(word));
    }
    forall n: nat | SpellsCount(word, n)
      ensures IsCount(word)
    {
      CountIff(word, n);
    }
  }

  lemma TypeOfIff(word: string, kind: GestureType)
    ensures TypeOf(word) == Some(kind) <==> kind != NoGesture && word == TypeName(kind)
  {
  }

  lemma WithDirectionsIff(kind: GestureType, fingers: nat, text: string, g: Gesture)
    ensures WithDirections(kind, fingers, text) == Some(g)
       <==> g.kind == kind && g.fingers == fingers && SpellsDirections(text, g.directions)
  {
    DirectionsOfIs(Split(text, '+'));
  }

  /** A text is read as a gesture exactly if its parts spell it. */
  lemma ParsedIff(input: string, g: Gesture)
    ensures Parsed(input) == Some(g) <==> Spells(Split(input, ':'), g)
  {
    hide SpellsDirections, SpellsCount, IsCount, WithDirections, TypeName, TypeOf, Split;
    var parts := Split(input, ':');
    if parts != [] {
      TypeOfIff(parts[0], g.kind);
      if TypeOf(parts[0]) != None {
        TypeOfIff(parts[0], TypeOf(parts[0]).value);
        ArgumentsIff(TypeOf(parts[0]).value, parts[1..], g);
      }
    }
  }

  lemma ArgumentsIff(kind: GestureType, args: seq<string>, g: Gesture)
    ensures WithArguments(kind, args) == Some(g) <==> g.kind == kind && SpellsArguments(args, g)
  {
    hide SpellsDirections, SpellsCount, IsCount, WithDirections;
    if args != [] {
      HasCount(args[0]);
      CountIff(args[0], g.fingers);
      if |args| == 1 {
        WithDirectionsIff(kind, 0, args[0], g);
      } else if |args| == 2 && IsCount(args[0]) {
        WithDirectionsIff(kind, CountOf(args[0]), args[1], g);
      }
    }
  }
}
