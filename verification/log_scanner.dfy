/** JSON values, the library calls the scrubber rests on, and finding where a JSON value starts in a line. */
module LogScanner {
  import opened Bytes
  import opened QuoteLexer

  const APOSTROPHE: byte := 0x27
  const COLON: byte := 0x3A
  const EQUALS: byte := 0x3D

  datatype Entry = Entry(key: Text, value: Json)

  datatype Json =
    | Null
    | Bool(b: bool)
    | Number(digits: Text)
    | String(text: Text)
    | Array(items: seq<Json>)
    | Object(entries: seq<Entry>)

  /** The library calls: the text pipeline (`None` when it replaced nothing), the JSON parser and printer,
      and the secret-word expression for keys. */
  datatype Env = Env(
    scrubText: Text -> Option<Text>,
    parse: Text -> Option<Json>,
    render: Json -> Text,
    isSecretKey: Text -> bool)

  function ParseContainer(env: Env, text: Text): Option<Json> {
    match env.parse(text)
    case Some(v) => if v.Array? || v.Object? then Some(v) else None
    case None => None
  }

  // ----- Does the prose end with a secret-named key? -----

  /** Length of the Unicode white-space character that ends `s[from..n]`; 0 when it ends with none. */
  function SpaceAtEnd(s: Text, from: nat, n: nat): (k: nat)
    requires from <= n <= |s|
    ensures k <= n - from && k <= 3
  {
    if n - from >= 1 && (0x09 <= s[n - 1] <= 0x0D || s[n - 1] == 0x20) then 1
    else if n - from >= 2 && s[n - 2] == 0xC2 && (s[n - 1] == 0x85 || s[n - 1] == 0xA0) then 2
    else if n - from >= 3 && IsWideSpace(s[n - 3], s[n - 2], s[n - 1]) then 3
    else 0
  }

  predicate IsWideSpace(a: byte, b: byte, c: byte) {
    || (a == 0xE1 && b == 0x9A && c == 0x80)
    || (a == 0xE2 && b == 0x80 && (0x80 <= c <= 0x8A || c == 0xA8 || c == 0xA9 || c == 0xAF))
    || (a == 0xE2 && b == 0x81 && c == 0x9F)
    || (a == 0xE3 && b == 0x80 && c == 0x80)
  }

  /** Where `s[from..n]` ends once its trailing white space is dropped. */
  function TrimEnd(s: Text, from: nat, n: nat): (end: nat)
    requires from <= n <= |s|
    ensures from <= end <= n
  {
    var k := SpaceAtEnd(s, from, n);
    if k == 0 then n else TrimEnd(s, from, n - k)
  }

  predicate IsKeyByte(c: byte) {
    || 0x30 <= c <= 0x39 || 0x41 <= c <= 0x5A || 0x61 <= c <= 0x7A
    || c == 0x5F || c == 0x2E || c == 0x2D
  }

  /** Start of the run of key bytes that ends `s[from..n]`. */
  function KeyStart(s: Text, from: nat, n: nat): (start: nat)
    requires from <= n <= |s|
    ensures from <= start <= n
    ensures forall k :: start <= k < n ==> IsKeyByte(s[k])
    ensures start == from || !IsKeyByte(s[start - 1])
  {
    if n == from || !IsKeyByte(s[n - 1]) then n else KeyStart(s, from, n - 1)
  }

  /** Whether the prose `s[from..to]` ends with a secret-named key and its separator. */
  predicate ProseEndsWithSecretKey(env: Env, s: Text, from: nat, to: nat)
    requires from <= to <= |s|
  {
    var trimmed := TrimEnd(s, from, to);
    && trimmed > from
    && (s[trimmed - 1] == COLON || s[trimmed - 1] == EQUALS)
    && var spaced := TrimEnd(s, from, trimmed - 1);
    && spaced > from
    && var keyEnd := if s[spaced - 1] == QUOTE || s[spaced - 1] == APOSTROPHE then spaced - 1 else spaced;
    && keyEnd > from
    && KeyStart(s, from, keyEnd) < keyEnd
    && env.isSecretKey(s[KeyStart(s, from, keyEnd)..keyEnd])
  }

  /** `s[a..b]` is white space only. */
  predicate Blank(s: Text, a: nat, b: nat)
    requires a <= b <= |s|
  {
    TrimEnd(s, a, b) == a
  }

  /** An ASCII letter or digit, an underscore, a full stop or a hyphen. */
  predicate IsIdentifierChar(ch: char) {
    'a' <= ch <= 'z' || 'A' <= ch <= 'Z' || '0' <= ch <= '9' || ch == '_' || ch == '.' || ch == '-'
  }

  /** `s[a..b]` is a secret-named key not preceded in the prose by a key byte; then come at most one quote
      up to `c`, blanks up to the separator at `d`, and blanks to the end. */
  ghost predicate KeyedAt(env: Env, s: Text, from: nat, to: nat, a: nat, b: nat, c: nat, d: nat) {
    && from <= a < b <= c <= d < to <= |s|
    && env.isSecretKey(s[a..b])
    && (forall k :: a <= k < b ==> IsIdentifierChar(s[k] as char))
    && (a == from || !IsIdentifierChar(s[a - 1] as char))
    && (c == b || (c == b + 1 && (s[b] as char == '"' || s[b] as char == '\'')))
    && Blank(s, c, d) && Blank(s, d + 1, to)
    && (s[d] as char == ':' || s[d] as char == '=')
  }

  lemma {:induction false} TrimmedTailIsBlank(s: Text, from: nat, n: nat, end: nat)
    requires from <= end <= n <= |s| && end == TrimEnd(s, from, n)
    ensures Blank(s, end, n)
  {
    var k := SpaceAtEnd(s, from, n);
    if k > 0 {
      TrimmedTailIsBlank(s, from, n - k, end);
      assert SpaceAtEnd(s, end, n) == k;
    }
  }

  /** Blanks after a visible ASCII byte trim back to that byte. */
  lemma {:induction false} TrimTo(s: Text, from: nat, end: nat, n: nat)
    requires from < end <= n <= |s| && Blank(s, end, n) && 0x21 <= s[end - 1] <= 0x7F
    ensures TrimEnd(s, from, n) == end
  {
    if end < n {
      var k := SpaceAtEnd(s, end, n);
      assert SpaceAtEnd(s, from, n) == k;
      TrimTo(s, from, end, n - k);
    }
  }

  lemma {:induction false} KeyStartFinds(s: Text, from: nat, a: nat, n: nat)
    requires from <= a <= n <= |s|
    requires (forall k :: a <= k < n ==> IsKeyByte(s[k])) && (a == from || !IsKeyByte(s[a - 1]))
    ensures KeyStart(s, from, n) == a
  {
    if a < n {
      KeyStartFinds(s, from, a, n - 1);
    }
  }

  /** The test holds exactly when the prose has that form. */
  lemma {:induction false} SecretKeyForm(env: Env, s: Text, from: nat, to: nat)
    requires from <= to <= |s|
    ensures ProseEndsWithSecretKey(env, s, from, to) <==> exists a, b, c, d :: KeyedAt(env, s, from, to, a, b, c, d)
  {
    if ProseEndsWithSecretKey(env, s, from, to) {
      SecretKeySplit(env, s, from, to);
    }
    forall a: nat, b: nat, c: nat, d: nat | KeyedAt(env, s, from, to, a, b, c, d)
      ensures ProseEndsWithSecretKey(env, s, from, to)
    {
      KeyedIsFound(env, s, from, to, a, b, c, d);
    }
  }

  lemma {:induction false} SecretKeySplit(env: Env, s: Text, from: nat, to: nat)
    requires from <= to <= |s| && ProseEndsWithSecretKey(env, s, from, to)
    ensures exists a, b, c, d :: KeyedAt(env, s, from, to, a, b, c, d)
  {
    var d := TrimEnd(s, from, to) - 1;
    var c := TrimEnd(s, from, d);
    var b := if s[c - 1] == QUOTE || s[c - 1] == APOSTROPHE then c - 1 else c;
    TrimmedTailIsBlank(s, from, to, d + 1);
    TrimmedTailIsBlank(s, from, d, c);
    KeyedByParts(env, s, from, to, b, c, d);
  }

  lemma {:induction false} KeyedByParts(env: Env, s: Text, from: nat, to: nat, b: nat, c: nat, d: nat)
    requires from < b <= c <= d < to <= |s| && Blank(s, c, d) && Blank(s, d + 1, to)
    requires s[d] == COLON || s[d] == EQUALS
    requires c == b || (c == b + 1 && (s[b] == QUOTE || s[b] == APOSTROPHE))
    requires KeyStart(s, from, b) < b && env.isSecretKey(s[KeyStart(s, from, b)..b])
    ensures exists a, b, c, d :: KeyedAt(env, s, from, to, a, b, c, d)
  {
    var a := KeyStart(s, from, b);
    assert KeyedAt(env, s, from, to, a, b, c, d);
  }

  lemma {:induction false} KeyedIsFound(env: Env, s: Text, from: nat, to: nat, a: nat, b: nat, c: nat, d: nat)
    requires KeyedAt(env, s, from, to, a, b, c, d)
    ensures ProseEndsWithSecretKey(env, s, from, to)
  {
    KeyedTrims(env, s, from, to, a, b, c, d);
    KeyedStart(env, s, from, to, a, b, c, d);
  }

  lemma {:induction false} KeyedStart(env: Env, s: Text, from: nat, to: nat, a: nat, b: nat, c: nat, d: nat)
    requires KeyedAt(env, s, from, to, a, b, c, d)
    ensures KeyStart(s, from, b) == a
  {
    KeyStartFinds(s, from, a, b);
  }

  lemma {:induction false} KeyedTrims(env: Env, s: Text, from: nat, to: nat, a: nat, b: nat, c: nat, d: nat)
    requires KeyedAt(env, s, from, to, a, b, c, d)
    ensures TrimEnd(s, from, to) == d + 1 && TrimEnd(s, from, d) == c
    ensures IsKeyByte(s[b - 1]) && (c > b ==> s[c - 1] == QUOTE || s[c - 1] == APOSTROPHE)
  {
    assert IsKeyByte(s[b - 1]);
    TrimTo(s, from, d + 1, to);
    TrimTo(s, from, c, d);
  }

  // ----- Where the next JSON value may start -----

  /** A single quote opens a span only at the start of the line or after `=` or `:`, blanks skipped. */
  predicate OpensSingleQuote(s: Text, at: nat)
    requires at <= |s|
  {
    at == 0 ||
    var c := s[at - 1];
    if c == 0x20 || c == 0x09 || c == 0x0A || c == 0x0D then OpensSingleQuote(s, at - 1)
    else c == EQUALS || c == COLON
  }

  function MatchingSingleQuote(s: Text, i: nat): (r: Option<nat>)
    requires i <= |s|
    ensures r.Some? ==> i <= r.value < |s| && s[r.value] == APOSTROPHE && APOSTROPHE !in s[i..r.value]
    ensures r == None <==> APOSTROPHE !in s[i..]
    decreases |s| - i
  {
    if i == |s| then None else if s[i] == APOSTROPHE then Some(i) else MatchingSingleQuote(s, i + 1)
  }

  /** The single-quoted span at `i` that the scan jumps over, to its closing quote: one whose key is
      secret, or whose body is not itself a JSON container. */
  function SkipTo(env: Env, s: Text, from: nat, i: nat): (r: Option<nat>)
    requires from <= i < |s|
    ensures r.Some? ==> s[i] == APOSTROPHE && i < r.value < |s| && s[r.value] == APOSTROPHE
  {
    if s[i] == APOSTROPHE && OpensSingleQuote(s, i) then
      match MatchingSingleQuote(s, i + 1)
      case Some(end) =>
        if ProseEndsWithSecretKey(env, s, from, i) || ParseContainer(env, s[i + 1..end]) == None
        then Some(end) else None
      case None => None
    else None
  }

  /** A jump is taken exactly from a single quote that opens, to the first one after it, when its key is secret
      or its body is not a JSON container. */
  lemma {:induction false} SkipsExactly(env: Env, s: Text, from: nat, i: nat, end: nat)
    requires from <= i < |s|
    ensures SkipTo(env, s, from, i) == Some(end) <==>
      && s[i] == APOSTROPHE && OpensSingleQuote(s, i)
      && i < end < |s| && s[end] == APOSTROPHE && APOSTROPHE !in s[i + 1..end]
      && (ProseEndsWithSecretKey(env, s, from, i)
          || !(exists v :: env.parse(s[i + 1..end]) == Some(v) && (v.Array? || v.Object?)))
  {
  }

  /** The scan for a start, from byte `i` in lexer state `q`. */
  function NextStart(env: Env, s: Text, from: nat, i: nat, q: Quote): (r: Option<nat>)
    requires from <= i <= |s|
    ensures r.Some? ==> i <= r.value < |s| && IsOpener(s[r.value])
    decreases |s| - i
  {
    if i == |s| then None
    else if q.inString || s[i] == QUOTE then NextStart(env, s, from, i + 1, NextQuote(q, s[i]))
    else
      match SkipTo(env, s, from, i)
      case Some(end) => NextStart(env, s, from, end, q)
      case None => if IsOpener(s[i]) then Some(i) else NextStart(env, s, from, i + 1, q)
  }

  /** The bytes of the single-quoted body at `i` that is given to the JSON parser. */
  function TriedBody(env: Env, s: Text, from: nat, i: nat): nat
    requires from <= i < |s|
  {
    if s[i] == APOSTROPHE && OpensSingleQuote(s, i) then
      match MatchingSingleQuote(s, i + 1)
      case Some(end) => if ProseEndsWithSecretKey(env, s, from, i) then 0 else end - (i + 1)
      case None => 0
    else 0
  }

  /** The bytes a scan gives to the JSON parser, from byte `i` in lexer state `q`. */
  function ScanTried(env: Env, s: Text, from: nat, i: nat, q: Quote): nat
    requires from <= i <= |s|
    decreases |s| - i
  {
    if i == |s| then 0
    else if q.inString || s[i] == QUOTE then ScanTried(env, s, from, i + 1, NextQuote(q, s[i]))
    else
      TriedBody(env, s, from, i) +
      match SkipTo(env, s, from, i)
      case Some(end) => ScanTried(env, s, from, end, q)
      case None => if IsOpener(s[i]) then 0 else ScanTried(env, s, from, i + 1, q)
  }

  /** The scan; `tried` counts the bytes it gives to the JSON parser. */
  method NextJsonStart(env: Env, input: Text, from: nat) returns (r: Option<nat>, ghost tried: nat)
    requires from <= |input|
    ensures r == NextStart(env, input, from, from, OUTSIDE)
    ensures tried == ScanTried(env, input, from, from, OUTSIDE)
  {
    tried := 0;
    var i := from;
    var quote: Option<byte> := None;
    var escape := false;
    while i < |input|
      invariant from <= i <= |input|
      invariant quote == None || quote == Some(QUOTE)
      invariant quote == None ==> !escape
      invariant NextStart(env, input, from, i, Quote(quote.Some?, escape)) == NextStart(env, input, from, from, OUTSIDE)
      invariant tried + ScanTried(env, input, from, i, Quote(quote.Some?, escape))
             == ScanTried(env, input, from, from, OUTSIDE)
      decreases |input| - i
    {
      var c := input[i];
      if quote.Some? {
        if escape {
          escape := false;
        } else if c == BACKSLASH && quote.value == QUOTE {
          escape := true;
        } else if c == quote.value {
          quote := None;
        }
      } else if c == QUOTE {
        quote := Some(QUOTE);
      } else if c == APOSTROPHE && OpensSingleQuote(input, i) {
        var close := MatchingSingleQuote(input, i + 1);
        if close.Some? {
          var body := input[i + 1..close.value];
          var ownedBySecret := ProseEndsWithSecretKey(env, input, from, i);
          if ownedBySecret {
            i := close.value;
            continue;
          }
          tried := tried + |body|;
          if ParseContainer(env, body) == None {
            i := close.value;
            continue;
          }
        }
      } else if IsOpener(c) {
        return Some(i), tried;
      }
      i := i + 1;
    }
    return None, tried;
  }
}
