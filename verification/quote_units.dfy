/** What the quote lexer and the bracket index make of a line, told from how the line is spelled: plain bytes,
    double-quoted strings with backslash escapes, and bracketed values. */
module QuoteUnits {
  import opened Bytes
  import opened QuoteLexer

  predicate ByteAt(s: Text, at: nat, c: byte) {
    at < |s| && s[at] == c
  }

  lemma {:induction false} LexByte(s: Text, at: nat)
    requires at < |s|
    ensures Lex(s, at + 1) == NextQuote(Lex(s, at), s[at])
  {
  }

  // ----- Strings -----

  /** One character of a string: a byte by itself, or a backslash and any byte. */
  datatype Char = Single(c: byte) | Escaped(c: byte)

  function CharLength(u: Char): nat {
    if u.Single? then 1 else 2
  }

  predicate CharAt(s: Text, at: nat, u: Char) {
    match u
    case Single(c) => ByteAt(s, at, c) && c != 0x22 && c != 0x5C
    case Escaped(c) => ByteAt(s, at, 0x5C) && ByteAt(s, at + 1, c)
  }

  function CharsLength(chars: seq<Char>): nat {
    if chars == [] then 0 else CharLength(chars[0]) + CharsLength(chars[1..])
  }

  /** The characters stand one after another from `at` on. */
  predicate CharsAt(s: Text, at: nat, chars: seq<Char>)
    decreases chars
  {
    at <= |s| && (chars == [] || (CharAt(s, at, chars[0]) && CharsAt(s, at + CharLength(chars[0]), chars[1..])))
  }

  /** From `a` to `b` the lexer is inside a string, ready for its next character at both ends. */
  predicate Inside(s: Text, a: nat, b: nat) {
    && a <= b <= |s| && Lex(s, a) == Lex(s, b) == Quote(true, false)
    && forall i :: a <= i <= b ==> Lex(s, i).inString
  }

  lemma {:induction false} CharStaysInside(s: Text, at: nat, u: Char)
    requires CharAt(s, at, u) && Lex(s, at) == Quote(true, false)
    ensures Inside(s, at, at + CharLength(u))
  {
    LexByte(s, at);
    if u.Escaped? {
      LexByte(s, at + 1);
    }
  }

  /** Within a string every escaped byte, a quote included, is part of the string. */
  lemma {:induction false} CharsStayInside(s: Text, at: nat, chars: seq<Char>)
    requires CharsAt(s, at, chars) && Lex(s, at) == Quote(true, false)
    ensures Inside(s, at, at + CharsLength(chars))
    decreases chars
  {
    if chars != [] {
      CharStaysInside(s, at, chars[0]);
      CharsStayInside(s, at + CharLength(chars[0]), chars[1..]);
    }
  }

  // ----- Units -----

  /** A byte outside strings, or a whole string. */
  datatype Unit = Plain(c: byte) | Quoted(chars: seq<Char>)

  function UnitLength(u: Unit): (n: nat)
    ensures n > 0
  {
    match u
    case Plain(_) => 1
    case Quoted(chars) => CharsLength(chars) + 2
  }

  predicate UnitAt(s: Text, at: nat, u: Unit) {
    match u
    case Plain(c) => ByteAt(s, at, c) && c != 0x22
    case Quoted(chars) =>
      && ByteAt(s, at, 0x22) && CharsAt(s, at + 1, chars)
      && ByteAt(s, at + 1 + CharsLength(chars), 0x22)
  }

  /** Crossed as a whole: only a bracket by itself opens, and nothing inside a string does. */
  predicate Crossed(s: Text, at: nat, u: Unit) {
    && at + UnitLength(u) <= |s| && Lex(s, at) == Lex(s, at + UnitLength(u)) == OUTSIDE
    && (OpenAt(s, at) <==> u == Plain(0x7B) || u == Plain(0x5B))
    && forall i :: at < i < at + UnitLength(u) ==> Lex(s, i).inString && !OpenAt(s, i)
  }

  lemma {:induction false} UnitIsCrossed(s: Text, at: nat, u: Unit)
    requires UnitAt(s, at, u) && Lex(s, at) == OUTSIDE
    ensures Crossed(s, at, u)
  {
    LexByte(s, at);
    if u.Quoted? {
      CharsStayInside(s, at + 1, u.chars);
      LexByte(s, at + 1 + CharsLength(u.chars));
    }
  }

  function UnitsLength(units: seq<Unit>): nat {
    if units == [] then 0 else UnitLength(units[0]) + UnitsLength(units[1..])
  }

  /** The units stand one after another from `at` on. */
  predicate UnitsAt(s: Text, at: nat, units: seq<Unit>)
    decreases units
  {
    at <= |s| && (units == [] || (UnitAt(s, at, units[0]) && UnitsAt(s, at + UnitLength(units[0]), units[1..])))
  }

  predicate AllCrossed(s: Text, at: nat, units: seq<Unit>)
    decreases units
  {
    units == [] || (Crossed(s, at, units[0]) && AllCrossed(s, at + UnitLength(units[0]), units[1..]))
  }

  /** From a place outside strings, each of such units is crossed as a whole, so the openers among them are
      exactly the brackets spelled by themselves. */
  lemma {:induction false} UnitsAreCrossed(s: Text, at: nat, units: seq<Unit>)
    requires UnitsAt(s, at, units) && Lex(s, at) == OUTSIDE
    ensures AllCrossed(s, at, units)
    ensures at + UnitsLength(units) <= |s| && Lex(s, at + UnitsLength(units)) == OUTSIDE
    decreases units
  {
    if units != [] {
      UnitIsCrossed(s, at, units[0]);
      UnitsAreCrossed(s, at + UnitLength(units[0]), units[1..]);
    }
  }

  // ----- Every line is spelled so -----

  /** What is left after the units: nothing, or a string that is not closed and may end in a backslash. */
  datatype Ragged = Closed | Unclosed(chars: seq<Char>, dangling: bool)

  predicate RaggedAt(s: Text, at: nat, r: Ragged) {
    match r
    case Closed => at == |s|
    case Unclosed(chars, dangling) =>
      && ByteAt(s, at, 0x22) && CharsAt(s, at + 1, chars)
      && var next := at + 1 + CharsLength(chars);
         if dangling then ByteAt(s, next, 0x5C) && next + 1 == |s| else next == |s|
  }

  /** From any place on, a line is spelled by such units and at most one unclosed string after them. */
  lemma {:induction false} EveryLineIsSpelled(s: Text, at: nat) returns (units: seq<Unit>, r: Ragged)
    requires at <= |s|
    ensures UnitsAt(s, at, units) && RaggedAt(s, at + UnitsLength(units), r)
    decreases |s| - at
  {
    if at == |s| {
      return [], Closed;
    }
    if s[at] != 0x22 {
      units, r := EveryLineIsSpelled(s, at + 1);
      units := [Plain(s[at])] + units;
      return;
    }
    var chars := StringFrom(s, at + 1);
    var next := at + 1 + CharsLength(chars);
    if ByteAt(s, next, 0x22) {
      units, r := EveryLineIsSpelled(s, next + 1);
      units := [Quoted(chars)] + units;
    } else {
      units, r := [], Unclosed(chars, next < |s|);
    }
  }

  /** The characters of a string from `at` on, up to its closing quote or as far as the line goes. */
  lemma {:induction false} StringFrom(s: Text, at: nat) returns (chars: seq<Char>)
    requires at <= |s|
    ensures CharsAt(s, at, chars)
    ensures var next := at + CharsLength(chars);
            next == |s| || ByteAt(s, next, 0x22) || (ByteAt(s, next, 0x5C) && next + 1 == |s|)
    decreases |s| - at
  {
    if at == |s| || s[at] == 0x22 || (s[at] == 0x5C && at + 1 == |s|) {
      return [];
    }
    var u := if s[at] == 0x5C then Escaped(s[at + 1]) else Single(s[at]);
    chars := StringFrom(s, at + CharLength(u));
    chars := [u] + chars;
  }

  /** No bracket of an unclosed string opens. */
  lemma {:induction false} RaggedStaysInside(s: Text, at: nat, r: Ragged, i: nat)
    requires at <= i < |s| && Lex(s, at) == OUTSIDE && RaggedAt(s, at, r)
    ensures !OpenAt(s, i)
  {
    LexByte(s, at);
    CharsStayInside(s, at + 1, r.chars);
  }

  // ----- Bracketed values -----

  /** A pair of brackets of any kinds, around units that are not brackets and further values. */
  datatype Bracketed = Bracketed(open: byte, body: seq<Item>, close: byte)
  datatype Item = Leaf(unit: Unit) | Nested(value: Bracketed)

  function ItemLength(item: Item): (n: nat)
    ensures n > 0
  {
    match item
    case Leaf(u) => UnitLength(u)
    case Nested(v) => ValueLength(v)
  }

  function ItemsLength(items: seq<Item>): nat {
    if items == [] then 0 else ItemLength(items[0]) + ItemsLength(items[1..])
  }

  function ValueLength(v: Bracketed): (n: nat)
    ensures n >= 2
  {
    ItemsLength(v.body) + 2
  }

  predicate ItemAt(s: Text, at: nat, item: Item)
    decreases item
  {
    match item
    case Leaf(u) => UnitAt(s, at, u) && (u.Plain? ==> u.c != 0x7B && u.c != 0x5B && u.c != 0x7D && u.c != 0x5D)
    case Nested(v) => ValueAt(s, at, v)
  }

  predicate ItemsAt(s: Text, at: nat, items: seq<Item>)
    decreases items
  {
    at <= |s| && (items == [] || (ItemAt(s, at, items[0]) && ItemsAt(s, at + ItemLength(items[0]), items[1..])))
  }

  predicate ValueAt(s: Text, at: nat, v: Bracketed)
    decreases v
  {
    && (v.open == 0x7B || v.open == 0x5B) && (v.close == 0x7D || v.close == 0x5D)
    && ByteAt(s, at, v.open) && ItemsAt(s, at + 1, v.body) && ByteAt(s, at + 1 + ItemsLength(v.body), v.close)
  }

  /** From `at` to `end` the brackets balance, closing nothing opened before. */
  ghost predicate Balanced(s: Text, at: nat, end: nat) {
    && at <= end <= |s| && Lex(s, at) == Lex(s, end) == OUTSIDE && Depth(s, at, end) == 0
    && forall j :: at <= j <= end ==> Depth(s, at, j) >= 0
  }

  lemma {:induction false} BalancedJoins(s: Text, a: nat, b: nat, c: nat)
    requires Balanced(s, a, b) && Balanced(s, b, c)
    ensures Balanced(s, a, c)
  {
    forall j | b <= j <= c ensures Depth(s, a, j) == Depth(s, b, j) {
      DepthSplits(s, a, b, j);
    }
  }

  lemma {:induction false} LeafBalanced(s: Text, at: nat, u: Unit)
    requires ItemAt(s, at, Leaf(u)) && Lex(s, at) == OUTSIDE
    ensures Balanced(s, at, at + UnitLength(u))
  {
    UnitIsCrossed(s, at, u);
    StringFlat(s, at, at + UnitLength(u));
  }

  lemma {:induction false} StringFlat(s: Text, at: nat, end: nat)
    requires at < end <= |s| && Delta(s, at) == 0 && forall i :: at < i < end ==> Lex(s, i).inString
    ensures forall j :: at <= j <= end ==> Depth(s, at, j) == 0
  {
    if at + 1 < end {
      StringFlat(s, at, end - 1);
    }
    assert Depth(s, at, end) == Depth(s, at, end - 1) + Delta(s, end - 1);
    assert Depth(s, at, at) == 0;
  }

  lemma {:induction false} ItemsBalanced(s: Text, at: nat, items: seq<Item>)
    requires ItemsAt(s, at, items) && Lex(s, at) == OUTSIDE
    ensures Balanced(s, at, at + ItemsLength(items))
    decreases items
  {
    if items == [] {
      assert Depth(s, at, at) == 0;
    } else {
      var next := at + ItemLength(items[0]);
      ItemBalanced(s, at, items[0]);
      ItemsBalanced(s, next, items[1..]);
      BalancedJoins(s, at, next, next + ItemsLength(items[1..]));
    }
  }

  lemma {:induction false} ItemBalanced(s: Text, at: nat, item: Item)
    requires ItemAt(s, at, item) && at <= |s| && Lex(s, at) == OUTSIDE
    ensures Balanced(s, at, at + ItemLength(item))
    decreases item
  {
    match item
    case Leaf(u) => LeafBalanced(s, at, u);
    case Nested(v) => ValueCloses(s, at, v);
  }

  /** A value so written is closed where its writing ends, whatever its strings hold. */
  lemma {:induction false} ValueCloses(s: Text, at: nat, v: Bracketed)
    requires ValueAt(s, at, v) && Lex(s, at) == OUTSIDE
    ensures Closes(s, at, at + ValueLength(v)) && Balanced(s, at, at + ValueLength(v))
    decreases v
  {
    var last := at + 1 + ItemsLength(v.body);
    LexByte(s, at);
    ItemsBalanced(s, at + 1, v.body);
    LexByte(s, last);
    Enclosed(s, at, last);
  }

  lemma {:induction false} Enclosed(s: Text, at: nat, last: nat)
    requires OpenAt(s, at) && Balanced(s, at + 1, last)
    requires last < |s| && Lex(s, last + 1) == OUTSIDE && Delta(s, last) == -1
    ensures Closes(s, at, last + 1) && Balanced(s, at, last + 1)
  {
    assert Depth(s, at, at + 1) == Depth(s, at, at) + Delta(s, at) == 1;
    forall j | at + 1 <= j <= last ensures Depth(s, at, j) == 1 + Depth(s, at + 1, j) {
      DepthSplits(s, at, at + 1, j);
    }
    assert Depth(s, at, last + 1) == Depth(s, at, last) + Delta(s, last);
  }

  /** After any units, the lookup at a written value answers where its writing ends. */
  lemma {:induction false} WrittenValueIsFound(s: Text, units: seq<Unit>, v: Bracketed)
    requires UnitsAt(s, 0, units) && ValueAt(s, UnitsLength(units), v)
    ensures ValueEndOf(s, UnitsLength(units)) == Some(UnitsLength(units) + ValueLength(v))
  {
    var at := UnitsLength(units);
    UnitsAreCrossed(s, 0, units);
    ValueCloses(s, at, v);
    NaiveEndCloses(s, at);
    ClosesOnce(s, at, at + ValueLength(v), NaiveEnd(s, at).value);
  }
}
