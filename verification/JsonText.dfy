/** JSON values, their texts with any white space, and the tokens they stand for. Whatever
    the value, the parser finds exactly those. */
module JsonText {
  import opened JsonTokens

  // ----- values

  /** A piece of the contents of a string. */
  datatype Chunk = Plain(c: char) | Escape(c: char) | Unicode(digits: string)

  /** Values with the white space that is written around their parts. A word is a number, a
      boolean, null, or anything else without quotes. */
  datatype Json =
    | Word(text: string)
    | Text(body: seq<Chunk>)
    | List(space: string, items: Items)
    | Dict(space: string, members: Members)

  datatype Items = NoItems | Item(before: string, value: Json, after: string, more: Items)

  datatype Members =
    | NoMembers
    | Member(before: string, key: Json, afterKey: string, beforeValue: string, value: Json, after: string, more: Members)

  predicate Blank(c: char) {
    c == ' ' || c == '\t' || c == '\r' || c == '\n'
  }

  predicate Blanks(s: string) {
    forall i :: 0 <= i < |s| ==> Blank(s[i])
  }

  predicate ValidChunk(chunk: Chunk) {
    match chunk
    case Plain(c) => c != '\"' && c != '\\' && c != '\0'
    case Escape(c) => c == '\"' || c == '\\' || c == '/' || c == 'b' || c == 'f' || c == 'n' || c == 'r' || c == 't'
    case Unicode(digits) => |digits| == 4 && HexDigits(digits)
  }

  predicate HexDigits(digits: string) {
    forall i :: 0 <= i < |digits| ==>
      'a' <= digits[i] <= 'f' || 'A' <= digits[i] <= 'F' || '0' <= digits[i] <= '9'
  }

  /** Printable, and nothing that ends a word. */
  predicate WordChars(text: string) {
    forall i :: 0 <= i < |text| ==>
      ' ' < text[i] < 127 as char && text[i] != ':' && text[i] != ',' && text[i] != ']' && text[i] != '}'
  }

  predicate ValidWord(text: string) {
    text != "" && text[0] != '{' && text[0] != '[' && text[0] != '\"' && WordChars(text)
  }

  predicate Valid(v: Json) {
    match v
    case Word(text) => ValidWord(text)
    case Text(body) => forall i :: 0 <= i < |body| ==> ValidChunk(body[i])
    case List(space, items) => Blanks(space) && ValidItems(items)
    case Dict(space, members) => Blanks(space) && ValidMembers(members)
  }

  predicate ValidItems(items: Items) {
    items.Item? ==> Blanks(items.before) && Valid(items.value) && Blanks(items.after) && ValidItems(items.more)
  }

  predicate ValidMembers(m: Members) {
    m.Member? ==>
      && Blanks(m.before) && (m.key.Word? || m.key.Text?) && Valid(m.key) && Blanks(m.afterKey)
      && Blanks(m.beforeValue) && Valid(m.value) && Blanks(m.after) && ValidMembers(m.more)
  }

  // ----- texts

  function ChunkText(chunk: Chunk): string {
    match chunk
    case Plain(c) => [c]
    case Escape(c) => ['\\', c]
    case Unicode(digits) => ['\\', 'u'] + digits
  }

  function BodyText(body: seq<Chunk>): string {
    if body == [] then "" else ChunkText(body[0]) + BodyText(body[1..])
  }

  function Write(v: Json): (s: string)
    ensures v.Word? || |s| >= 2
  {
    match v
    case Word(text) => text
    case Text(body) => "\"" + BodyText(body) + "\""
    case List(space, items) => "[" + space + WriteItems(items) + "]"
    case Dict(space, members) => "{" + space + WriteMembers(members) + "}"
  }

  function WriteItems(items: Items): string {
    match items
    case NoItems => ""
    case Item(before, value, after, more) =>
      before + Write(value) + after + if more.NoItems? then "" else "," + WriteItems(more)
  }

  function WriteMembers(members: Members): string {
    match members
    case NoMembers => ""
    case Member(before, key, afterKey, beforeValue, value, after, more) =>
      before + Write(key) + afterKey + ":" + beforeValue + Write(value) + after
      + if more.NoMembers? then "" else "," + WriteMembers(more)
  }

  // ----- tokens

  function ItemCount(items: Items): nat {
    if items.NoItems? then 0 else 1 + ItemCount(items.more)
  }

  function MemberCount(members: Members): nat {
    if members.NoMembers? then 0 else 1 + MemberCount(members.more)
  }

  /** In preorder, with the places of a text that starts at `p`. The size is the number of
      items or keys. */
  function Tokens(v: Json, p: nat): (tokens: seq<Token>)
    ensures tokens != []
  {
    var end := p + |Write(v)|;
    match v
    case Word(_) => [Token(Primitive, p, end, 0)]
    case Text(_) => [Token(String, p + 1, end - 1, 0)]
    case List(space, items) => [Token(Array, p, end, ItemCount(items))] + ItemTokens(items, p + 1 + |space|)
    case Dict(space, members) => [Token(Object, p, end, MemberCount(members))] + MemberTokens(members, p + 1 + |space|)
  }

  function ItemTokens(items: Items, p: nat): seq<Token> {
    match items
    case NoItems => []
    case Item(before, value, after, more) =>
      var q := p + |before|;
      Tokens(value, q) + ItemTokens(more, q + |Write(value)| + |after| + 1)
  }

  /** A key has its value as the only child. */
  function MemberTokens(members: Members, p: nat): seq<Token> {
    match members
    case NoMembers => []
    case Member(before, key, afterKey, beforeValue, value, after, more) =>
      var q := p + |before|;
      var r := q + |Write(key)| + |afterKey| + 1 + |beforeValue|;
      [Tokens(key, q)[0].(size := 1)] + Tokens(value, r) + MemberTokens(more, r + |Write(value)| + |after| + 1)
  }

  // ----- where a text stands

  predicate ReadsAt(js: string, p: nat, text: string) {
    p + |text| <= |js| && js[p..p + |text|] == text
  }

  lemma {:induction false} AtParts(js: string, p: nat, a: string, b: string)
    requires ReadsAt(js, p, a + b)
    ensures ReadsAt(js, p, a) && ReadsAt(js, p + |a|, b)
  {
    var text := js[p..p + |a + b|];
    assert text[..|a|] == a && text[|a|..] == b;
  }

  lemma {:induction false} AtFirst(js: string, p: nat, text: string)
    requires ReadsAt(js, p, text) && text != ""
    ensures p < |js| && js[p] == text[0]
  {
    assert js[p..p + |text|][0] == js[p];
  }

  /** What ends a word. */
  predicate Ended(js: string, p: nat) {
    AtEnd(js, p) || Delimiter(js[p])
  }

  // ----- scanning

  lemma {:induction false} WordEnd(js: string, p: nat, text: string)
    requires ReadsAt(js, p, text) && Ended(js, p + |text|)
    requires WordChars(text)
    ensures PrimitiveEnd(js, p) == Scan.At(p + |text|)
    decreases |text|
  {
    if text != "" {
      AtFirst(js, p, text);
      assert text == [text[0]] + text[1..];
      AtParts(js, p, [text[0]], text[1..]);
      WordEnd(js, p + 1, text[1..]);
    }
  }

  lemma {:induction false} DigitsEnd(js: string, p: nat, digits: string)
    requires ReadsAt(js, p, digits) && HexDigits(digits)
    ensures HexEnd(js, p, |digits|) == Scan.At(p + |digits|)
    decreases |digits|
  {
    if digits != "" {
      AtFirst(js, p, digits);
      assert digits == [digits[0]] + digits[1..];
      AtParts(js, p, [digits[0]], digits[1..]);
      DigitsEnd(js, p + 1, digits[1..]);
    }
  }

  lemma {:induction false} ChunkEnd(js: string, p: nat, chunk: Chunk)
    requires ReadsAt(js, p, ChunkText(chunk)) && ValidChunk(chunk) && p + |ChunkText(chunk)| < |js|
    ensures StringEnd(js, p) == StringEnd(js, p + |ChunkText(chunk)|)
  {
    AtFirst(js, p, ChunkText(chunk));
    match chunk
    case Plain(c) =>
    case Escape(c) =>
      AtParts(js, p, ['\\'], [c]);
      AtFirst(js, p + 1, [c]);
    case Unicode(digits) =>
      AtParts(js, p, ['\\', 'u'], digits);
      AtParts(js, p, ['\\'], ['u']);
      AtFirst(js, p + 1, ['u']);
      DigitsEnd(js, p + 2, digits);
  }

  lemma {:induction false} BodyEnd(js: string, p: nat, body: seq<Chunk>)
    requires ReadsAt(js, p, BodyText(body)) && forall i :: 0 <= i < |body| ==> ValidChunk(body[i])
    requires p + |BodyText(body)| < |js| && js[p + |BodyText(body)|] == '\"'
    ensures StringEnd(js, p) == Scan.At(p + |BodyText(body)|)
    decreases |body|
  {
    if body == [] {
      assert BodyText(body) == "";
    } else {
      BodyStep(js, p, body);
      hide StringEnd, ValidChunk, BodyText, ChunkText, ReadsAt;
      BodyEnd(js, p + |ChunkText(body[0])|, body[1..]);
    }
  }

  lemma {:induction false} BodyStep(js: string, p: nat, body: seq<Chunk>)
    requires body != [] && ReadsAt(js, p, BodyText(body)) && ValidChunk(body[0]) && p + |BodyText(body)| < |js|
    ensures var q := p + |ChunkText(body[0])|;
            && StringEnd(js, p) == StringEnd(js, q) && ReadsAt(js, q, BodyText(body[1..]))
            && q + |BodyText(body[1..])| == p + |BodyText(body)|
  {
    hide StringEnd, ValidChunk, ChunkText;
    assert BodyText(body) == ChunkText(body[0]) + BodyText(body[1..]);
    hide BodyText;
    AtParts(js, p, ChunkText(body[0]), BodyText(body[1..]));
    ChunkEnd(js, p, body[0]);
  }

  // ----- steps

  lemma {:induction false} OneStep(js: string, st: State, cap: nat)
    requires ValidState(st) && !AtEnd(js, st.pos) && Step(js, st, cap).Next?
    ensures ValidState(Step(js, st, cap).st) && Run(js, st, cap) == Run(js, Step(js, st, cap).st, cap)
  {
    StepAdvances(js, st, cap);
  }

  lemma {:induction false} OverBlanks(js: string, st: State, cap: nat, space: string)
    requires ValidState(st) && ReadsAt(js, st.pos, space) && Blanks(space)
    ensures Run(js, st, cap) == Run(js, st.(pos := st.pos + |space|), cap)
    decreases |space|
  {
    if space != "" {
      AtFirst(js, st.pos, space);
      assert space == [space[0]] + space[1..];
      AtParts(js, st.pos, [space[0]], space[1..]);
      OneStep(js, st, cap);
      hide Run;
      OverBlanks(js, st.(pos := st.pos + 1), cap, space[1..]);
    }
  }

  // ----- open and closed tokens

  ghost predicate AllEnded(tokens: seq<Token>) {
    forall i :: 0 <= i < |tokens| ==> tokens[i].end != -1
  }

  lemma {:induction false} LastOpenBefore(tokens: seq<Token>, more: seq<Token>)
    requires AllEnded(more)
    ensures LastOpen(tokens + more) == LastOpen(tokens) && LastOpenContainer(tokens + more) == LastOpenContainer(tokens)
  {
    if more == [] {
      assert tokens + more == tokens;
    } else {
      var all := tokens + more;
      assert all[..|all| - 1] == tokens + more[..|more| - 1];
      assert all[|all| - 1] == more[|more| - 1];
      LastOpenBefore(tokens, more[..|more| - 1]);
    }
  }

  /** The same tokens, but for their sizes. */
  predicate SameSpans(a: seq<Token>, b: seq<Token>) {
    |a| == |b| && forall i :: 0 <= i < |a| ==> a[i].(size := 0) == b[i].(size := 0)
  }

  lemma {:induction false} SizesDoNotMatter(a: seq<Token>, b: seq<Token>)
    requires SameSpans(a, b)
    ensures LastOpen(a) == LastOpen(b) && LastOpenContainer(a) == LastOpenContainer(b)
  {
    if a != [] {
      assert a[|a| - 1].(size := 0) == b[|b| - 1].(size := 0);
      SizesDoNotMatter(a[..|a| - 1], b[..|b| - 1]);
    }
  }

  lemma {:induction false} TokensEnded(v: Json, p: nat)
    ensures AllEnded(Tokens(v, p))
    decreases v, 0
  {
    match v
    case Word(_) =>
    case Text(_) =>
    case List(space, items) => ItemTokensEnded(items, p + 1 + |space|);
    case Dict(space, members) => MemberTokensEnded(members, p + 1 + |space|);
  }

  lemma {:induction false} ItemTokensEnded(items: Items, p: nat)
    ensures AllEnded(ItemTokens(items, p))
    decreases items, 0
  {
    if items.Item? {
      TokensEnded(items.value, p + |items.before|);
      ItemTokensEnded(items.more, p + |items.before| + |Write(items.value)| + |items.after| + 1);
    }
  }

  lemma {:induction false} MemberTokensEnded(m: Members, p: nat)
    ensures AllEnded(MemberTokens(m, p))
    decreases m, 0
  {
    if m.Member? {
      var q := p + |m.before|;
      var r := q + |Write(m.key)| + |m.afterKey| + 1 + |m.beforeValue|;
      TokensEnded(m.key, q);
      TokensEnded(m.value, r);
      MemberTokensEnded(m.more, r + |Write(m.value)| + |m.after| + 1);
    }
  }
}
