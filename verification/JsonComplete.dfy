/** Every value is parsed into its tokens: kinds, places and sizes, in preorder. */
module JsonComplete {
  import opened JsonTokens
  import opened JsonText

  predicate Leaf(v: Json) {
    v.Word? || v.Text?
  }

  /** The state behind a value. */
  function Follow(st: State, v: Json): State
    requires ValidState(st)
  {
    State(st.pos + |Write(v)|, if Leaf(v) then st.super else LastOpen(st.tokens), Grown(st.tokens, st.super) + Tokens(v, st.pos))
  }

  /** The value comes next, something ends it, and there are tokens enough. */
  predicate Next(js: string, st: State, cap: nat, v: Json) {
    && ValidState(st) && Valid(v) && ReadsAt(js, st.pos, Write(v)) && Ended(js, st.pos + |Write(v)|)
    && |st.tokens| + |Tokens(v, st.pos)| <= cap
  }

  lemma {:induction false} GrownAppend(tokens: seq<Token>, more: seq<Token>, super: int)
    requires -1 <= super < |tokens|
    ensures Grown(tokens + more, super) == Grown(tokens, super) + more
  {
  }

  lemma {:induction false} GrownAt(base: seq<Token>, t: Token, more: seq<Token>)
    ensures Grown(base + [t] + more, |base|) == base + [t.(size := t.size + 1)] + more
  {
  }

  lemma {:induction false} LeafRuns(js: string, st: State, cap: nat, v: Json)
    requires Next(js, st, cap, v) && Leaf(v)
    ensures ValidState(Follow(st, v)) && Run(js, st, cap) == Run(js, Follow(st, v), cap)
  {
    hide Grown, LastOpen, Run, Step;
    LeafEnds(js, st.pos, v);
    LeafStep(js, st, cap, v);
    OneStep(js, st, cap);
  }

  /** Where scanning a word or string ends. */
  lemma {:induction false} LeafEnds(js: string, p: nat, v: Json)
    requires Leaf(v) && Valid(v) && ReadsAt(js, p, Write(v)) && Ended(js, p + |Write(v)|)
    ensures p < |js|
    ensures v.Word? ==>
              js[p] == v.text[0] && ValidWord(v.text) && Write(v) == v.text && PrimitiveEnd(js, p) == Scan.At(p + |Write(v)|)
    ensures v.Text? ==> js[p] == '\"' && StringEnd(js, p + 1) == Scan.At(p + |Write(v)| - 1)
  {
    hide PrimitiveEnd, StringEnd, BodyText, ReadsAt, ValidChunk;
    AtFirst(js, p, Write(v));
    match v
    case Word(text) => WordEnd(js, p, text);
    case Text(body) =>
      AtParts(js, p, "\"" + BodyText(body), "\"");
      AtParts(js, p, "\"", BodyText(body));
      AtFirst(js, p + 1 + |BodyText(body)|, "\"");
      BodyEnd(js, p + 1, body);
  }

  lemma {:induction false} LeafStep(js: string, st: State, cap: nat, v: Json)
    requires ValidState(st) && Leaf(v) && st.pos < |js| && |st.tokens| + |Tokens(v, st.pos)| <= cap
    requires v.Word? ==> ValidWord(v.text) && js[st.pos] == v.text[0] && PrimitiveEnd(js, st.pos) == Scan.At(st.pos + |Write(v)|)
    requires v.Text? ==> js[st.pos] == '\"' && StringEnd(js, st.pos + 1) == Scan.At(st.pos + |Write(v)| - 1)
    ensures !AtEnd(js, st.pos) && Step(js, st, cap) == JsonTokens.Outcome.Next(Follow(st, v))
  {
    hide PrimitiveEnd, StringEnd, LastOpen, LastOpenContainer, Grown, Write;
    GrownAppend(st.tokens, Tokens(v, st.pos), st.super);
  }

  // ----- containers

  /** The container `t`, what was before it and what is in it. */
  function Within(p: nat, super: int, base: seq<Token>, t: Token, more: seq<Token>): (st: State)
    requires -1 <= super <= |base| + |more|
    ensures ValidState(st) && st.pos == p && st.super == super && |st.tokens| == |base| + 1 + |more|
  {
    State(p, super, base + [t] + more)
  }

  /** It is the last one open. */
  ghost predicate IsOpen(t: Token, kind: Kind, more: seq<Token>) {
    t.kind == kind && t.start != -1 && t.end == -1 && AllEnded(more)
  }

  /** From one state to another. */
  ghost predicate Leads(js: string, cap: nat, a: State, b: State) {
    ValidState(a) && ValidState(b) && Run(js, a, cap) == Run(js, b, cap)
  }

  lemma {:induction false} LastOpenIs(base: seq<Token>, t: Token, more: seq<Token>)
    requires AllEnded(more) && t.start != -1 && t.end == -1
    ensures LastOpen(base + [t] + more) == |base|
    ensures t.kind == Array || t.kind == Object ==> LastOpenContainer(base + [t] + more) == |base|
  {
    LastOpenBefore(base + [t], more);
    assert (base + [t])[..|base|] == base;
  }

  lemma {:induction false} BlanksWithin(js: string, cap: nat, p: nat, super: int, base: seq<Token>, t: Token, more: seq<Token>, space: string)
    requires -1 <= super <= |base| + |more| && ReadsAt(js, p, space) && Blanks(space)
    ensures Leads(js, cap, Within(p, super, base, t, more), Within(p + |space|, super, base, t, more))
  {
    hide Run;
    OverBlanks(js, Within(p, super, base, t, more), cap, space);
  }

  lemma {:induction false} Opens(js: string, st: State, cap: nat, kind: Kind)
    requires ValidState(st) && st.pos < |js| && |st.tokens| < cap
    requires (kind == Array && js[st.pos] == '[') || (kind == Object && js[st.pos] == '{')
    ensures var base, t := Grown(st.tokens, st.super), Token(kind, st.pos, -1, 0);
            Leads(js, cap, st, Within(st.pos + 1, |base|, base, t, [])) && IsOpen(t, kind, [])
  {
    hide PrimitiveEnd, StringEnd, Grown, LastOpen, LastOpenContainer, Run;
    OneStep(js, st, cap);
    var tokens := Grown(st.tokens, st.super) + [Token(kind, st.pos, -1, 0)];
    assert tokens + [] == tokens;
  }

  lemma {:induction false} Closes(js: string, cap: nat, p: nat, super: int, base: seq<Token>, t: Token, more: seq<Token>, kind: Kind)
    requires IsOpen(t, kind, more) && -1 <= super <= |base| + |more| && p < |js|
    requires (kind == Array && js[p] == ']') || (kind == Object && js[p] == '}')
    ensures Leads(js, cap, Within(p, super, base, t, more), State(p + 1, LastOpen(base), base + [t.(end := p + 1)] + more))
  {
    LastOpenIs(base, t, more);
    var st := Within(p, super, base, t, more);
    assert st.tokens[..|base|] == base && st.tokens[|base|] == t;
    assert st.tokens[|base| := t.(end := p + 1)] == base + [t.(end := p + 1)] + more;
    hide PrimitiveEnd, StringEnd, LastOpen, LastOpenContainer, Run;
    OneStep(js, st, cap);
  }

  /** A comma leads back to the container, if a key was the enclosing token. */
  lemma {:induction false} Commas(js: string, cap: nat, p: nat, super: int, base: seq<Token>, t: Token, more: seq<Token>, kind: Kind)
    requires IsOpen(t, kind, more) && (kind == Array || kind == Object) && p < |js| && js[p] == ','
    requires super == |base| || (|base| < super <= |base| + |more| && more[super - |base| - 1].kind in {String, Primitive})
    ensures Leads(js, cap, Within(p, super, base, t, more), Within(p + 1, |base|, base, t, more))
  {
    LastOpenIs(base, t, more);
    var st := Within(p, super, base, t, more);
    hide PrimitiveEnd, StringEnd, LastOpen, LastOpenContainer, Run;
    OneStep(js, st, cap);
  }

  lemma {:induction false} Colon(js: string, cap: nat, p: nat, super: int, base: seq<Token>, t: Token, more: seq<Token>)
    requires -1 <= super <= |base| + |more| && p < |js| && js[p] == ':'
    ensures Leads(js, cap, Within(p, super, base, t, more), Within(p + 1, |base| + |more|, base, t, more))
  {
    hide PrimitiveEnd, StringEnd, LastOpen, LastOpenContainer, Run;
    OneStep(js, Within(p, super, base, t, more), cap);
  }

  lemma {:induction false} BlankOrNext(js: string, p: nat, space: string, next: string)
    requires ReadsAt(js, p, space + next) && Blanks(space) && next != ""
    requires next[0] == ',' || next[0] == ':' || next[0] == ']' || next[0] == '}'
    ensures Ended(js, p) && ReadsAt(js, p, space) && ReadsAt(js, p + |space|, next)
    ensures p + |space| < |js| && js[p + |space|] == next[0]
  {
    AtParts(js, p, space, next);
    AtFirst(js, p + |space|, next);
    AtFirst(js, p, space + next);
  }

  // ----- values

  /** A value, from the state before it to the state behind it. */
  lemma {:induction false} ValueRuns(js: string, st: State, cap: nat, v: Json)
    requires Next(js, st, cap, v)
    ensures Leads(js, cap, st, Follow(st, v))
    decreases v, 1
  {
    if Leaf(v) {
      LeafRuns(js, st, cap, v);
    } else if v.List? {
      ListRuns(js, st, cap, v);
    } else {
      DictRuns(js, st, cap, v);
    }
  }

  lemma {:induction false} ListRuns(js: string, st: State, cap: nat, v: Json)
    requires Next(js, st, cap, v) && v.List?
    ensures Leads(js, cap, st, Follow(st, v))
    decreases v, 0
  {
    hide Run, Within, Follow, Grown, Write, WriteItems, Tokens, ItemTokens, ReadsAt, AllEnded, Blanks, Ended, ItemCount, Valid, ValidItems, LastOpen;
    var p, base, t := st.pos + 1 + |v.space|, Grown(st.tokens, st.super), Token(Array, st.pos, -1, 0);
    ListStands(js, st, cap, v);
    Opens(js, st, cap, Array);
    BlanksWithin(js, cap, st.pos + 1, |base|, base, t, [], v.space);
    ItemsRun(js, cap, p, v.items, base, t, []);
    assert [] + ItemTokens(v.items, p) == ItemTokens(v.items, p);
    CloseContainer(js, st, cap, v, p, base, |base|, ItemCount(v.items), ItemTokens(v.items, p), Array, WriteItems(v.items), "]");
  }

  lemma {:induction false} ListStands(js: string, st: State, cap: nat, v: Json)
    requires Next(js, st, cap, v) && v.List?
    ensures var p := st.pos + 1 + |v.space|;
            && st.pos < |js| && js[st.pos] == '[' && ReadsAt(js, st.pos + 1, v.space) && Blanks(v.space)
            && ReadsAt(js, p, WriteItems(v.items) + "]") && ItemsNext(js, p, cap - |st.tokens| - 1, v.items)
            && st.pos + |Write(v)| == p + |WriteItems(v.items)| + 1 && AllEnded(ItemTokens(v.items, p))
            && Tokens(v, st.pos) == [Token(Array, st.pos, st.pos + |Write(v)|, ItemCount(v.items))] + ItemTokens(v.items, p)
  {
    hide Write, WriteItems, Tokens, ItemTokens, ReadsAt, Valid, ValidItems, Blanks, Ended, AllEnded, ItemCount;
    ListParts(v, st.pos);
    StartsContainer(js, st, v, "[", v.space, WriteItems(v.items), "]");
    ItemTokensEnded(v.items, st.pos + 1 + |v.space|);
  }

  lemma {:induction false} ListParts(v: Json, p: nat)
    requires v.List?
    ensures Write(v) == "[" + v.space + WriteItems(v.items) + "]"
    ensures Tokens(v, p) == [Token(Array, p, p + |Write(v)|, ItemCount(v.items))] + ItemTokens(v.items, p + 1 + |v.space|)
    ensures Valid(v) ==> Blanks(v.space) && ValidItems(v.items)
  {
  }

  lemma {:induction false} DictRuns(js: string, st: State, cap: nat, v: Json)
    requires Next(js, st, cap, v) && v.Dict?
    ensures Leads(js, cap, st, Follow(st, v))
    decreases v, 0
  {
    hide Run, Within, Follow, Grown, Write, WriteMembers, Tokens, MemberTokens, ReadsAt, AllEnded, Blanks, Ended, MemberCount, Valid, ValidMembers,
         LastOpen;
    var p, base, t := st.pos + 1 + |v.space|, Grown(st.tokens, st.super), Token(Object, st.pos, -1, 0);
    DictStands(js, st, cap, v);
    Opens(js, st, cap, Object);
    BlanksWithin(js, cap, st.pos + 1, |base|, base, t, [], v.space);
    var super := MembersRun(js, cap, p, v.members, base, t, []);
    assert [] + MemberTokens(v.members, p) == MemberTokens(v.members, p);
    CloseContainer(js, st, cap, v, p, base, super, MemberCount(v.members), MemberTokens(v.members, p), Object, WriteMembers(v.members), "}");
  }

  lemma {:induction false} DictStands(js: string, st: State, cap: nat, v: Json)
    requires Next(js, st, cap, v) && v.Dict?
    ensures var p := st.pos + 1 + |v.space|;
            && st.pos < |js| && js[st.pos] == '{' && ReadsAt(js, st.pos + 1, v.space) && Blanks(v.space)
            && ReadsAt(js, p, WriteMembers(v.members) + "}") && MembersNext(js, p, cap - |st.tokens| - 1, v.members)
            && st.pos + |Write(v)| == p + |WriteMembers(v.members)| + 1 && AllEnded(MemberTokens(v.members, p))
            && Tokens(v, st.pos) == [Token(Object, st.pos, st.pos + |Write(v)|, MemberCount(v.members))] + MemberTokens(v.members, p)
  {
    hide Write, WriteMembers, Tokens, MemberTokens, ReadsAt, Valid, ValidMembers, Blanks, Ended, AllEnded, MemberCount;
    DictParts(v, st.pos);
    StartsContainer(js, st, v, "{", v.space, WriteMembers(v.members), "}");
    MemberTokensEnded(v.members, st.pos + 1 + |v.space|);
  }

  lemma {:induction false} DictParts(v: Json, p: nat)
    requires v.Dict?
    ensures Write(v) == "{" + v.space + WriteMembers(v.members) + "}"
    ensures Tokens(v, p) == [Token(Object, p, p + |Write(v)|, MemberCount(v.members))] + MemberTokens(v.members, p + 1 + |v.space|)
    ensures Valid(v) ==> Blanks(v.space) && ValidMembers(v.members)
  {
  }

  lemma {:induction false} StartsContainer(js: string, st: State, v: Json, open: string, space: string, inner: string, close: string)
    requires Write(v) == open + space + inner + close && |open| == |close| == 1 && ReadsAt(js, st.pos, Write(v))
    ensures st.pos < |js| && js[st.pos] == open[0] && ReadsAt(js, st.pos + 1, space) && ReadsAt(js, st.pos + 1 + |space|, inner + close)
    ensures st.pos + |Write(v)| == st.pos + 1 + |space| + |inner| + 1
  {
    hide Write, ReadsAt;
    AtFirst(js, st.pos, Write(v));
    assert open + space + inner + close == open + (space + (inner + close));
    AtParts(js, st.pos, open, space + (inner + close));
    AtParts(js, st.pos + 1, space, inner + close);
  }

  /** The closing bracket of a container. */
  lemma {:induction false} CloseContainer(js: string, st: State, cap: nat, v: Json, p: nat, base: seq<Token>, super: int, count: nat,
                                          children: seq<Token>, kind: Kind, inner: string, bracket: string)
    requires ValidState(st) && !Leaf(v) && base == Grown(st.tokens, st.super) && ReadsAt(js, p, inner + bracket)
    requires (kind == Array && bracket == "]") || (kind == Object && bracket == "}")
    requires p + |inner| + 1 == st.pos + |Write(v)| && AllEnded(children) && -1 <= super <= |base| + |children|
    requires Tokens(v, st.pos) == [Token(kind, st.pos, st.pos + |Write(v)|, count)] + children
    ensures Leads(js, cap, Within(p + |inner|, super, base, Token(kind, st.pos, -1, count), children), Follow(st, v))
  {
    var t := Token(kind, st.pos, -1, count);
    AtParts(js, p, inner, bracket);
    AtFirst(js, p + |inner|, bracket);
    GrownLastOpen(st.tokens, st.super);
    hide Run, LastOpen, Grown, Tokens, Write, ReadsAt, AllEnded, Within;
    Closes(js, cap, p + |inner|, super, base, t, children, kind);
    var t1 := t.(end := st.pos + |Write(v)|);
    assert base + [t1] + children == base + ([t1] + children);
  }

  lemma {:induction false} GrownLastOpen(tokens: seq<Token>, super: int)
    requires -1 <= super < |tokens|
    ensures LastOpen(Grown(tokens, super)) == LastOpen(tokens)
  {
    SizesDoNotMatter(Grown(tokens, super), tokens);
  }

  // ----- what is in a container

  /** The items of a list come next, then its bracket. */
  ghost predicate ItemsNext(js: string, p: nat, room: int, items: Items) {
    ValidItems(items) && ReadsAt(js, p, WriteItems(items) + "]") && |ItemTokens(items, p)| <= room
  }

  lemma {:induction false} ItemsRun(js: string, cap: nat, p: nat, items: Items, base: seq<Token>, t: Token, more: seq<Token>)
    requires IsOpen(t, Array, more) && ItemsNext(js, p, cap - |base| - 1 - |more|, items)
    ensures Leads(js, cap, Within(p, |base|, base, t, more),
                  Within(p + |WriteItems(items)|, |base|, base, t.(size := t.size + ItemCount(items)), more + ItemTokens(items, p)))
    decreases items, 1
  {
    hide Run, Within, Write, WriteItems, Tokens, ItemTokens, ReadsAt, AllEnded, ItemCount, ValidItems, ItemsRest;
    if items.NoItems? {
      EndOfItems(p, more);
    } else {
      var q := p + |items.before|;
      var s := q + |Write(items.value)| + |items.after|;
      var t1, more1 := t.(size := t.size + 1), more + Tokens(items.value, q);
      OneItemRuns(js, cap, p, items, base, t, more, q, s);
      if items.more.NoItems? {
        LastItem(items, more, q, p);
      } else {
        MoreItems(js, items, more, q, p, s, cap - |base| - 1 - |more|);
        Commas(js, cap, s, |base|, base, t1, more1, Array);
        ItemsRun(js, cap, s + 1, items.more, base, t1, more1);
      }
    }
  }

  lemma {:induction false} EndOfItems(p: nat, more: seq<Token>)
    ensures WriteItems(NoItems) == "" && ItemCount(NoItems) == 0 && more + ItemTokens(NoItems, p) == more
  {
    assert more + [] == more;
  }

  /** One item, with the blanks around it. */
  lemma {:induction false} OneItemRuns(js: string, cap: nat, p: nat, items: Items, base: seq<Token>, t: Token, more: seq<Token>, q: nat, s: nat)
    requires IsOpen(t, Array, more) && ItemsNext(js, p, cap - |base| - 1 - |more|, items) && items.Item?
    requires q == p + |items.before| && s == q + |Write(items.value)| + |items.after|
    ensures var t1, more1 := t.(size := t.size + 1), more + Tokens(items.value, q);
            && IsOpen(t1, Array, more1) && Leads(js, cap, Within(p, |base|, base, t, more), Within(s, |base|, base, t1, more1))
            && ReadsAt(js, s, ItemsRest(items.more)) && s < |js| && js[s] == ItemsRest(items.more)[0]
    decreases items, 0
  {
    hide Run, Ended, Within, Follow, Write, WriteItems, Tokens, ItemTokens, ReadsAt, ValidItems, Valid, AllEnded, Blanks, Next, ItemsRest;
    var v, r := items.value, q + |Write(items.value)|;
    var t1, more1 := t.(size := t.size + 1), more + Tokens(v, q);
    var st := Within(q, |base|, base, t, more);
    ItemStands(js, p, items, cap - |base| - 1 - |more|, q, r);
    IsNext(js, st, cap, v);
    MoreEnded(more, v, q);
    BlanksWithin(js, cap, p, |base|, base, t, more, items.before);
    ValueRuns(js, st, cap, v);
    FollowWithin(q, v, base, t, more, Array);
    BlanksWithin(js, cap, r, |base|, base, t1, more1, items.after);
  }

  lemma {:induction false} IsNext(js: string, st: State, cap: nat, v: Json)
    requires ValidState(st) && Valid(v) && ReadsAt(js, st.pos, Write(v)) && Ended(js, st.pos + |Write(v)|)
    requires |st.tokens| + |Tokens(v, st.pos)| <= cap
    ensures Next(js, st, cap, v)
  {
  }

  lemma {:induction false} MoreEnded(more: seq<Token>, v: Json, q: nat)
    requires AllEnded(more)
    ensures AllEnded(more + Tokens(v, q))
  {
    TokensEnded(v, q);
  }

  /** Where the parts of an item stand. */
  lemma {:induction false} ItemStands(js: string, p: nat, items: Items, room: int, q: nat, r: nat)
    requires ItemsNext(js, p, room, items) && items.Item? && q == p + |items.before| && r == q + |Write(items.value)|
    ensures Blanks(items.before) && Blanks(items.after) && Valid(items.value)
    ensures ReadsAt(js, p, items.before) && ReadsAt(js, q, Write(items.value)) && Ended(js, r) && ReadsAt(js, r, items.after)
    ensures var s := r + |items.after|;
            ReadsAt(js, s, ItemsRest(items.more)) && s < |js| && js[s] == ItemsRest(items.more)[0]
    ensures |Tokens(items.value, q)| <= room
  {
    hide Write, WriteItems, Tokens, ItemTokens, ValidItems, Valid, ReadsAt, Ended, Blanks, ItemsRest;
    var behind := items.after + ItemsRest(items.more);
    ItemsText(items);
    ItemTokensStep(items, p);
    AtParts(js, p, items.before, Write(items.value) + behind);
    AtParts(js, q, Write(items.value), behind);
    RestStarts(items.more);
    BlankOrNext(js, r, items.after, ItemsRest(items.more));
  }

  lemma {:induction false} RestStarts(more: Items)
    ensures ItemsRest(more) != "" && (ItemsRest(more)[0] == ']' || ItemsRest(more)[0] == ',')
  {
  }

  /** What is behind an item. */
  function ItemsRest(more: Items): string {
    if more.NoItems? then "]" else "," + (WriteItems(more) + "]")
  }

  lemma {:induction false} ItemsText(items: Items)
    requires items.Item? && ValidItems(items)
    ensures WriteItems(items) + "]" == items.before + (Write(items.value) + (items.after + ItemsRest(items.more)))
    ensures Blanks(items.before) && Blanks(items.after) && Valid(items.value) && ValidItems(items.more)
  {
    hide Write;
    var a, b, c := items.before, Write(items.value), items.after;
    if items.more.NoItems? {
      assert WriteItems(items) == a + b + c + "";
      assert a + b + c + "" + "]" == a + (b + (c + "]"));
    } else {
      var d := WriteItems(items.more);
      assert WriteItems(items) == a + b + c + ("," + d);
      assert a + b + c + ("," + d) + "]" == a + (b + (c + ("," + (d + "]"))));
    }
  }

  /** The state behind a value that is directly in a container. */
  lemma {:induction false} FollowWithin(p: nat, v: Json, base: seq<Token>, t: Token, more: seq<Token>, kind: Kind)
    requires IsOpen(t, kind, more)
    ensures Follow(Within(p, |base|, base, t, more), v)
         == Within(p + |Write(v)|, |base|, base, t.(size := t.size + 1), more + Tokens(v, p))
  {
    hide Write, Tokens, LastOpen, Grown;
    LastOpenIs(base, t, more);
    GrownAt(base, t, more);
    var grown := base + [t.(size := t.size + 1)];
    assert grown + more + Tokens(v, p) == grown + (more + Tokens(v, p));
  }

  lemma {:induction false} LastItem(items: Items, more: seq<Token>, q: nat, p: nat)
    requires items.Item? && items.more.NoItems? && q == p + |items.before|
    ensures |WriteItems(items)| == |items.before| + |Write(items.value)| + |items.after|
    ensures more + ItemTokens(items, p) == more + Tokens(items.value, q) && ItemCount(items) == 1
  {
    hide Write, Tokens;
    assert Tokens(items.value, q) + [] == Tokens(items.value, q);
    assert ItemTokens(items.more, q + |Write(items.value)| + |items.after| + 1) == [];
  }

  lemma {:induction false} MoreItems(js: string, items: Items, more: seq<Token>, q: nat, p: nat, s: nat, room: int)
    requires items.Item? && items.more.Item? && q == p + |items.before| && s == q + |Write(items.value)| + |items.after|
    requires ItemsNext(js, p, room, items) && ReadsAt(js, s, ItemsRest(items.more))
    ensures p + |WriteItems(items)| == s + 1 + |WriteItems(items.more)| && s < |js| && js[s] == ','
    ensures ItemsNext(js, s + 1, room - |Tokens(items.value, q)|, items.more)
    ensures more + ItemTokens(items, p) == more + Tokens(items.value, q) + ItemTokens(items.more, s + 1)
    ensures ItemCount(items) == 1 + ItemCount(items.more)
  {
    AtParts(js, s, ",", WriteItems(items.more) + "]");
    AtFirst(js, s, ",");
    ItemTokensStep(items, p);
    hide Write, Tokens, ReadsAt, ItemTokens;
    assert WriteItems(items) == items.before + Write(items.value) + items.after + ("," + WriteItems(items.more));
  }

  lemma {:induction false} ItemTokensStep(items: Items, p: nat)
    requires items.Item?
    ensures var q := p + |items.before|;
            ItemTokens(items, p) == Tokens(items.value, q) + ItemTokens(items.more, q + |Write(items.value)| + |items.after| + 1)
  {
  }

  // ----- members

  /** The members of an object come next, then its bracket. */
  ghost predicate MembersNext(js: string, p: nat, room: int, m: Members) {
    ValidMembers(m) && ReadsAt(js, p, WriteMembers(m) + "}") && |MemberTokens(m, p)| <= room
  }

  /** What is behind a member. */
  function MembersRest(more: Members): string {
    if more.NoMembers? then "}" else "," + (WriteMembers(more) + "}")
  }

  lemma {:induction false} MembersRestStarts(more: Members)
    ensures MembersRest(more) != "" && (MembersRest(more)[0] == '}' || MembersRest(more)[0] == ',')
  {
  }

  /** The places of a member: key, colon, value, and what is behind it. */
  datatype Places = Places(key: nat, keyEnd: nat, colon: nat, value: nat, valueEnd: nat, end: nat)

  function PlacesOf(m: Members, p: nat): Places
    requires m.Member?
  {
    var key := p + |m.before|;
    var keyEnd := key + |Write(m.key)|;
    var colon := keyEnd + |m.afterKey|;
    var value := colon + 1 + |m.beforeValue|;
    var valueEnd := value + |Write(m.value)|;
    Places(key, keyEnd, colon, value, valueEnd, valueEnd + |m.after|)
  }

  /** The tokens of one member. */
  function OneMember(m: Members, at: Places): seq<Token>
    requires m.Member?
  {
    [Tokens(m.key, at.key)[0].(size := 1)] + Tokens(m.value, at.value)
  }

  lemma {:induction false} MemberTokensStep(m: Members, p: nat)
    requires m.Member?
    ensures MemberTokens(m, p) == OneMember(m, PlacesOf(m, p)) + MemberTokens(m.more, PlacesOf(m, p).end + 1)
  {
    hide Write, Tokens;
  }

  lemma {:induction false} MembersText(m: Members)
    requires m.Member? && ValidMembers(m)
    ensures WriteMembers(m) + "}"
         == m.before + (Write(m.key) + (m.afterKey + (":" + (m.beforeValue + (Write(m.value) + (m.after + MembersRest(m.more)))))))
    ensures Blanks(m.before) && Blanks(m.afterKey) && Blanks(m.beforeValue) && Blanks(m.after)
    ensures Leaf(m.key) && Valid(m.key) && Valid(m.value) && ValidMembers(m.more)
  {
    hide Write, Valid, Blanks;
    var rest := if m.more.NoMembers? then "" else "," + WriteMembers(m.more);
    assert WriteMembers(m) == m.before + Write(m.key) + m.afterKey + ":" + m.beforeValue + Write(m.value) + m.after + rest;
    assert rest + "}" == MembersRest(m.more);
    hide WriteMembers, MembersRest, ValidMembers;
    Regroup(m.before, Write(m.key), m.afterKey, ":", m.beforeValue, Write(m.value), m.after, rest, "}");
  }

  lemma {:induction false} Regroup(a: string, b: string, c: string, d: string, e: string, f: string, g: string, h: string, i: string)
    ensures a + b + c + d + e + f + g + h + i == a + (b + (c + (d + (e + (f + (g + (h + i)))))))
  {
  }

  /** Where the parts of a member stand. */
  lemma {:induction false} MemberStands(js: string, p: nat, m: Members, room: int)
    requires MembersNext(js, p, room, m) && m.Member?
    ensures var at := PlacesOf(m, p);
            && Blanks(m.before) && ReadsAt(js, p, m.before)
            && Leaf(m.key) && Valid(m.key) && ReadsAt(js, at.key, Write(m.key)) && Ended(js, at.keyEnd)
            && Blanks(m.afterKey) && ReadsAt(js, at.keyEnd, m.afterKey) && at.colon < |js| && js[at.colon] == ':'
            && Blanks(m.beforeValue) && ReadsAt(js, at.colon + 1, m.beforeValue)
            && Valid(m.value) && ReadsAt(js, at.value, Write(m.value)) && Ended(js, at.valueEnd)
            && Blanks(m.after) && ReadsAt(js, at.valueEnd, m.after)
            && ReadsAt(js, at.end, MembersRest(m.more)) && at.end < |js| && js[at.end] == MembersRest(m.more)[0]
            && |OneMember(m, at)| + |MemberTokens(m.more, at.end + 1)| <= room
  {
    hide Write, WriteMembers, Tokens, MemberTokens, ValidMembers, Valid, ReadsAt, Ended, Blanks, MembersRest, OneMember;
    var at := PlacesOf(m, p);
    var behind := m.after + MembersRest(m.more);
    var value := ":" + (m.beforeValue + (Write(m.value) + behind));
    MembersText(m);
    MemberTokensStep(m, p);
    AtParts(js, p, m.before, Write(m.key) + (m.afterKey + value));
    AtParts(js, at.key, Write(m.key), m.afterKey + value);
    BlankOrNext(js, at.keyEnd, m.afterKey, value);
    AtParts(js, at.colon, ":", m.beforeValue + (Write(m.value) + behind));
    AtParts(js, at.colon + 1, m.beforeValue, Write(m.value) + behind);
    AtParts(js, at.value, Write(m.value), behind);
    MembersRestStarts(m.more);
    BlankOrNext(js, at.valueEnd, m.after, MembersRest(m.more));
  }

  /** The enclosing token behind a member may still be its key. */
  lemma {:induction false} MembersRun(js: string, cap: nat, p: nat, m: Members, base: seq<Token>, t: Token, more: seq<Token>) returns (super: int)
    requires IsOpen(t, Object, more) && MembersNext(js, p, cap - |base| - 1 - |more|, m)
    ensures -1 <= super <= |base| + |more| + |MemberTokens(m, p)|
    ensures Leads(js, cap, Within(p, |base|, base, t, more),
                  Within(p + |WriteMembers(m)|, super, base, t.(size := t.size + MemberCount(m)), more + MemberTokens(m, p)))
    decreases m, 2
  {
    hide Run, Within, Write, WriteMembers, Tokens, MemberTokens, ReadsAt, AllEnded, MemberCount, ValidMembers, MembersRest, PlacesOf, OneMember;
    if m.NoMembers? {
      super := |base|;
      EndOfMembers(p, more);
    } else {
      var at := PlacesOf(m, p);
      var t1, more1 := t.(size := t.size + 1), more + OneMember(m, at);
      super := OneMemberRuns(js, cap, p, m, base, t, more);
      if m.more.NoMembers? {
        LastMember(m, more, p);
      } else {
        MoreMembers(js, m, more, p, cap - |base| - 1 - |more|);
        Commas(js, cap, at.end, super, base, t1, more1, Object);
        super := MembersRun(js, cap, at.end + 1, m.more, base, t1, more1);
      }
    }
  }

  lemma {:induction false} EndOfMembers(p: nat, more: seq<Token>)
    ensures WriteMembers(NoMembers) == "" && MemberCount(NoMembers) == 0 && more + MemberTokens(NoMembers, p) == more
  {
    assert more + [] == more;
  }

  lemma {:induction false} LastMember(m: Members, more: seq<Token>, p: nat)
    requires m.Member? && m.more.NoMembers?
    ensures p + |WriteMembers(m)| == PlacesOf(m, p).end && MemberCount(m) == 1
    ensures more + MemberTokens(m, p) == more + OneMember(m, PlacesOf(m, p))
  {
    MemberTokensStep(m, p);
    hide Write, Tokens, OneMember;
    assert MemberTokens(m.more, PlacesOf(m, p).end + 1) == [];
  }

  lemma {:induction false} MoreMembers(js: string, m: Members, more: seq<Token>, p: nat, room: int)
    requires m.Member? && m.more.Member? && MembersNext(js, p, room, m)
    ensures var at := PlacesOf(m, p);
            && p + |WriteMembers(m)| == at.end + 1 + |WriteMembers(m.more)| && at.end < |js| && js[at.end] == ','
            && MembersNext(js, at.end + 1, room - |OneMember(m, at)|, m.more) && MemberCount(m) == 1 + MemberCount(m.more)
            && more + MemberTokens(m, p) == more + OneMember(m, at) + MemberTokens(m.more, at.end + 1)
  {
    var at := PlacesOf(m, p);
    hide Write, WriteMembers, Tokens, ReadsAt, MemberTokens, Ended, Blanks, Valid, ValidMembers, OneMember, MembersRest, MemberCount, PlacesOf;
    MemberStands(js, p, m, room);
    RestOfMembers(m);
    AtParts(js, at.end, ",", WriteMembers(m.more) + "}");
    AtFirst(js, at.end, ",");
    MemberTokensStep(m, p);
    MembersText(m);
    MembersLength(m, p);
    var at_ := OneMember(m, at);
    assert more + (at_ + MemberTokens(m.more, at.end + 1)) == more + at_ + MemberTokens(m.more, at.end + 1);
  }

  lemma {:induction false} RestOfMembers(m: Members)
    requires m.Member? && m.more.Member?
    ensures MembersRest(m.more) == "," + (WriteMembers(m.more) + "}") && MemberCount(m) == 1 + MemberCount(m.more)
  {
    hide WriteMembers;
  }

  lemma {:induction false} MembersLength(m: Members, p: nat)
    requires m.Member? && m.more.Member?
    ensures p + |WriteMembers(m)| == PlacesOf(m, p).end + 1 + |WriteMembers(m.more)|
  {
    hide Write;
    assert WriteMembers(m) == m.before + Write(m.key) + m.afterKey + ":" + m.beforeValue + Write(m.value) + m.after + ("," + WriteMembers(m.more));
  }

  /** One member: key, colon and value, with the blanks between them. */
  lemma {:induction false} OneMemberRuns(js: string, cap: nat, p: nat, m: Members, base: seq<Token>, t: Token, more: seq<Token>) returns (super: int)
    requires IsOpen(t, Object, more) && MembersNext(js, p, cap - |base| - 1 - |more|, m) && m.Member?
    ensures var at := PlacesOf(m, p);
            var t1, more1 := t.(size := t.size + 1), more + OneMember(m, at);
            && IsOpen(t1, Object, more1) && -1 <= super <= |base| + |more1|
            && (super == |base| || (|base| < super <= |base| + |more1| && more1[super - |base| - 1].kind in {String, Primitive}))
            && Leads(js, cap, Within(p, |base|, base, t, more), Within(at.end, super, base, t1, more1))
    decreases m, 1
  {
    hide Run, Ended, Within, Follow, Write, WriteMembers, Tokens, MemberTokens, ValidMembers, Valid, ReadsAt, AllEnded, Blanks, Next, MembersRest,
         OneMember;
    var at, room := PlacesOf(m, p), cap - |base| - 1 - |more|;
    var t1, key := t.(size := t.size + 1), Tokens(m.key, at.key)[0];
    var withKey, more1 := more + [key], more + OneMember(m, at);
    MemberStands(js, p, m, room);
    MemberSizes(m, at, more, key);
    // the key
    BlanksWithin(js, cap, p, |base|, base, t, more, m.before);
    IsNext(js, Within(at.key, |base|, base, t, more), cap, m.key);
    ValueRuns(js, Within(at.key, |base|, base, t, more), cap, m.key);
    FollowWithin(at.key, m.key, base, t, more, Object);
    BlanksWithin(js, cap, at.keyEnd, |base|, base, t1, withKey, m.afterKey);
    // the colon
    Colon(js, cap, at.colon, |base|, base, t1, withKey);
    var k := |base| + |withKey|;
    BlanksWithin(js, cap, at.colon + 1, k, base, t1, withKey, m.beforeValue);
    // the value
    IsNext(js, Within(at.value, k, base, t1, withKey), cap, m.value);
    ValueRuns(js, Within(at.value, k, base, t1, withKey), cap, m.value);
    super := FollowKey(at.value, m, at, base, t1, more, key);
    BlanksWithin(js, cap, at.valueEnd, super, base, t1, more1, m.after);
  }

  lemma {:induction false} MemberSizes(m: Members, at: Places, more: seq<Token>, key: Token)
    requires m.Member? && Leaf(m.key) && key == Tokens(m.key, at.key)[0] && AllEnded(more)
    ensures |OneMember(m, at)| == 1 + |Tokens(m.value, at.value)| && Tokens(m.key, at.key) == [key] && key.kind in {String, Primitive} && key.size == 0
    ensures AllEnded(more + [key]) && AllEnded(more + OneMember(m, at))
  {
    TokensEnded(m.key, at.key);
    TokensEnded(m.value, at.value);
    hide Write;
  }

  /** The state behind the value of a key: the key has grown. */
  lemma {:induction false} FollowKey(p: nat, m: Members, at: Places, base: seq<Token>, t: Token, more: seq<Token>, key: Token) returns (super: int)
    requires m.Member? && Leaf(m.key) && key == Tokens(m.key, at.key)[0] && p == at.value && IsOpen(t, Object, more)
    ensures var k, more1 := |base| + 1 + |more|, more + OneMember(m, at);
            && -1 <= super <= |base| + |more1|
            && (super == |base| || (|base| < super <= |base| + |more1| && more1[super - |base| - 1].kind in {String, Primitive}))
            && Follow(Within(p, k, base, t, more + [key]), m.value) == Within(p + |Write(m.value)|, super, base, t, more1)
  {
    hide Write, Tokens, LastOpen, AllEnded, Grown, OneMember;
    var k, v, value := |base| + 1 + |more|, m.value, Tokens(m.value, p);
    MemberSizes(m, at, more, key);
    LastOpenIs(base, t, more + [key]);
    super := if Leaf(v) then k else |base|;
    KeyGrows(base, t, more, key, value);
    KeyStands(m, at, more, key, value);
  }

  lemma {:induction false} KeyStands(m: Members, at: Places, more: seq<Token>, key: Token, value: seq<Token>)
    requires m.Member? && key == Tokens(m.key, at.key)[0] && value == Tokens(m.value, at.value)
    ensures OneMember(m, at) == [key.(size := 1)] + value
    ensures (more + OneMember(m, at))[|more|] == key.(size := 1)
  {
  }

  lemma {:induction false} KeyGrows(base: seq<Token>, t: Token, more: seq<Token>, key: Token, value: seq<Token>)
    requires key.size == 0
    ensures Grown(base + [t] + (more + [key]), |base| + 1 + |more|) + value == base + [t] + (more + ([key.(size := 1)] + value))
  {
    var head, k := base + [t] + more, |base| + 1 + |more|;
    assert base + [t] + (more + [key]) == head + [key];
    assert (head + [key])[k := key.(size := 1)] == head + [key.(size := 1)];
    assert head + [key.(size := 1)] + value == base + [t] + (more + ([key.(size := 1)] + value));
  }

  // ----- whole texts

  function Document(before: string, v: Json, after: string): string {
    before + Write(v) + after
  }

  lemma {:induction false} DocumentStands(before: string, v: Json, after: string)
    requires Blanks(before) && Blanks(after)
    ensures var js, p := Document(before, v, after), |before|;
            && ReadsAt(js, 0, before) && ReadsAt(js, p, Write(v)) && ReadsAt(js, p + |Write(v)|, after)
            && Ended(js, p + |Write(v)|) && |js| == p + |Write(v)| + |after|
  {
    hide Write;
    var js := Document(before, v, after);
    if after != "" {
      assert js[|before| + |Write(v)|] == after[0];
    }
  }

  /** Every value, with any white space around it, is parsed into its tokens. */
  lemma {:induction false} Complete(before: string, v: Json, after: string, cap: nat)
    requires Blanks(before) && Blanks(after) && Valid(v) && |Tokens(v, |before|)| <= cap
    ensures var js, tokens := Document(before, v, after), Tokens(v, |before|);
            Run(js, Fresh, cap) == Result(|tokens|, State(|js|, -1, tokens))
  {
    hide Run, Write, Valid, Tokens, ReadsAt, LastOpen, Ended, Grown, Document, Blanks;
    var js, st := Document(before, v, after), State(|before|, -1, []);
    DocumentStands(before, v, after);
    OverBlanks(js, Fresh, cap, before);
    ValueRuns(js, st, cap, v);
    FollowFirst(v, |before|);
    OverBlanks(js, Follow(st, v), cap, after);
    EndOfText(js, v, |before|, cap);
  }

  lemma {:induction false} FollowFirst(v: Json, p: nat)
    ensures Follow(State(p, -1, []), v) == State(p + |Write(v)|, -1, Tokens(v, p))
  {
    assert LastOpen([]) == -1;
    hide Tokens, Write;
    assert [] + Tokens(v, p) == Tokens(v, p);
  }

  lemma {:induction false} EndOfText(js: string, v: Json, p: nat, cap: nat)
    ensures Run(js, State(|js|, -1, Tokens(v, p)), cap) == Result(|Tokens(v, p)|, State(|js|, -1, Tokens(v, p)))
  {
    TokensEnded(v, p);
    hide Tokens;
    LastOpenBefore([], Tokens(v, p));
    assert [] + Tokens(v, p) == Tokens(v, p);
  }

  /** With fewer tokens the parser runs out of them. */
  lemma {:induction false} TooFewTokens(before: string, v: Json, after: string, few: nat)
    requires Blanks(before) && Blanks(after) && Valid(v) && few < |Tokens(v, |before|)|
    ensures Run(Document(before, v, after), Fresh, few).code == NOMEM
  {
    Complete(before, v, after, |Tokens(v, |before|)|);
    FewOrSame(Document(before, v, after), Fresh, few, |Tokens(v, |before|)|);
  }

  lemma {:induction false} FewOrSame(js: string, st: State, few: nat, many: nat)
    requires ValidState(st) && |st.tokens| <= few <= many
    ensures |Run(js, st, few).st.tokens| <= few
    ensures Run(js, st, few).code != NOMEM ==> Run(js, st, few) == Run(js, st, many)
    decreases |js| - st.pos
  {
    hide Step, LastOpen;
    if !AtEnd(js, st.pos) {
      StepAdvances(js, st, few);
      MoreTokensSameStep(js, st, few, many);
      if Step(js, st, few).Next? {
        StepFits(js, st, few);
        FewOrSame(js, Step(js, st, few).st, few, many);
      }
    }
  }

  lemma {:induction false} StepFits(js: string, st: State, cap: nat)
    requires ValidState(st) && !AtEnd(js, st.pos) && |st.tokens| <= cap && Step(js, st, cap).Next?
    ensures |Step(js, st, cap).st.tokens| <= cap
  {
    hide StringEnd, PrimitiveEnd, LastOpen, LastOpenContainer;
  }

  // ----- texts cut off

  /** A step keeps the first token, once that is closed. */
  lemma {:induction false} StepKeepsFirst(js: string, st: State, cap: nat)
    requires ValidState(st) && !AtEnd(js, st.pos) && st.tokens != [] && Step(js, st, cap).Next?
    ensures var next := Step(js, st, cap).st.tokens;
            && next != [] && next[0].start == st.tokens[0].start
            && (st.tokens[0].end != -1 ==> next[0].end == st.tokens[0].end)
            && (next[0].end != st.tokens[0].end ==> next[0].end == st.pos + 1 == Step(js, st, cap).st.pos)
  {
    hide StringEnd, PrimitiveEnd, LastOpen, LastOpenContainer;
  }

  lemma {:induction false} RunKeepsFirst(js: string, st: State, cap: nat)
    requires ValidState(st) && st.tokens != [] && st.tokens[0].end != -1
    ensures var tokens := Run(js, st, cap).st.tokens; tokens != [] && tokens[0].end == st.tokens[0].end
    decreases |js| - st.pos
  {
    hide Step, LastOpen;
    if !AtEnd(js, st.pos) && Step(js, st, cap).Next? {
      StepAdvances(js, st, cap);
      StepKeepsFirst(js, st, cap);
      RunKeepsFirst(js, Step(js, st, cap).st, cap);
    }
  }

  lemma {:induction false} HexEndCut(js: string, p: nat, k: nat, n: nat)
    requires p <= n <= |js| && HexEnd(js, p, k).At?
    ensures HexEnd(js[..n], p, k) == Scan.At(if HexEnd(js, p, k).pos < n then HexEnd(js, p, k).pos else n)
    decreases k
  {
    if k > 0 && p < n && !AtEnd(js, p) {
      HexEndCut(js, p + 1, k - 1, n);
    }
  }

  lemma {:induction false} StringEndCut(js: string, p: nat, n: nat)
    requires p <= n <= |js| && StringEnd(js, p).At?
    ensures StringEnd(js[..n], p) == if StringEnd(js, p).pos < n then StringEnd(js, p) else Partial
    decreases |js| - p
  {
    if p < n && js[p] != '\"' {
      if js[p] == '\\' && p + 1 < |js| {
        if p + 1 == n {
          assert StringEnd(js[..n], p) == StringEnd(js[..n], n) == Partial;
        } else if Escaped(js[p + 1]) {
          StringEndCut(js, p + 2, n);
        } else {
          HexEndCut(js, p + 2, 4, n);
          var q := HexEnd(js, p + 2, 4).pos;
          if q <= n {
            StringEndCut(js, q, n);
          }
        }
      } else {
        StringEndCut(js, p + 1, n);
      }
    }
  }

  lemma {:induction false} PrimitiveEndCut(js: string, p: nat, n: nat)
    requires p <= n <= |js| && PrimitiveEnd(js, p).At?
    ensures PrimitiveEnd(js[..n], p) == Scan.At(if PrimitiveEnd(js, p).pos < n then PrimitiveEnd(js, p).pos else n)
    decreases |js| - p
  {
    if p < n && !AtEnd(js, p) && !Delimiter(js[p]) {
      PrimitiveEndCut(js, p + 1, n);
    }
  }

  /** A step of a text cut off at `n`: the same, a string that is not finished, or a word
      that ends there. */
  lemma {:induction false} StepCut(js: string, st: State, cap: nat, n: nat)
    requires ValidState(st) && st.pos < n <= |js| && !AtEnd(js, st.pos) && Step(js, st, cap).Next?
    ensures var cut := Step(js[..n], st, cap);
            || (cut == Step(js, st, cap) && cut.st.pos <= n)
            || cut == Stop(PART)
            || (cut.Next? && cut.st.pos == n && |cut.st.tokens| == |st.tokens| + 1
                && forall i :: 0 <= i < |st.tokens| ==> cut.st.tokens[i].(size := 0) == st.tokens[i].(size := 0))
  {
    var c := js[st.pos];
    if c == '\"' {
      if StringEnd(js, st.pos + 1).At? {
        StringEndCut(js, st.pos + 1, n);
      }
    } else if PrimitiveEnd(js, st.pos).At? {
      PrimitiveEndCut(js, st.pos, n);
    }
    hide StringEnd, PrimitiveEnd, LastOpen, LastOpenContainer;
  }

  lemma {:induction false} FirstIsOpen(tokens: seq<Token>)
    requires tokens != [] && Open(tokens[0])
    ensures LastOpen(tokens) != -1
  {
  }

  /** As long as the first token would be closed only later, more text is asked for. */
  lemma {:induction false} CutRun(js: string, st: State, cap: nat, n: nat)
    requires ValidState(st) && st.pos <= n <= |js| && st.tokens != [] && Open(st.tokens[0])
    requires var done := Run(js, st, cap); done.code >= 0 && done.st.tokens != [] && done.st.tokens[0].end > n
    ensures Run(js[..n], st, cap).code == PART
    decreases |js| - st.pos
  {
    hide Step, LastOpen;
    FirstIsOpen(st.tokens);
    if st.pos < n {
      assert js[..n][st.pos] == js[st.pos];
      StepAdvances(js, st, cap);
      StepAdvances(js[..n], st, cap);
      StepKeepsFirst(js, st, cap);
      StepCut(js, st, cap, n);
      var next, cut := Step(js, st, cap).st, Step(js[..n], st, cap);
      if next.tokens[0].end != -1 {
        RunKeepsFirst(js, next, cap);
      }
      if cut == Step(js, st, cap) {
        CutRun(js, next, cap, n);
      } else if cut.Next? {
        assert cut.st.tokens[0].(size := 0) == st.tokens[0].(size := 0);
        FirstIsOpen(cut.st.tokens);
      }
    }
  }

  /** A list or object that is cut off anywhere is told from a broken one. */
  lemma {:induction false} CutOffIsPartial(before: string, v: Json, after: string, cap: nat, n: nat)
    requires Blanks(before) && Blanks(after) && Valid(v) && !Leaf(v) && |Tokens(v, |before|)| <= cap
    requires |before| < n < |before| + |Write(v)|
    ensures Run(Document(before, v, after)[..n], Fresh, cap).code == PART
  {
    hide Run, Write, Valid, Tokens, Ended, Document, ReadsAt, Blanks, LastOpen;
    var js, kind, st := Document(before, v, after), if v.List? then Array else Object, State(|before|, -1, []);
    Complete(before, v, after, cap);
    FirstToken(v, |before|);
    CutStands(before, v, after, n);
    OverBlanks(js, Fresh, cap, before);
    OverBlanks(js[..n], Fresh, cap, before);
    OpensFirst(js, |before|, cap, kind);
    OpensFirst(js[..n], |before|, cap, kind);
    CutRun(js, State(|before| + 1, 0, [Token(kind, |before|, -1, 0)]), cap, n);
  }

  /** The beginning of a text, and of the part up to `n`. */
  lemma {:induction false} CutStands(before: string, v: Json, after: string, n: nat)
    requires Blanks(before) && Blanks(after) && |before| < n < |before| + |Write(v)|
    ensures var js, p := Document(before, v, after), |before|;
            && |js| >= p + |Write(v)| && ReadsAt(js, 0, before) && ReadsAt(js[..n], 0, before)
            && js[p] == Write(v)[0] == js[..n][p]
  {
    hide Write, Blanks;
    DocumentStands(before, v, after);
    AtFirst(Document(before, v, after), |before|, Write(v));
    hide Document;
    var js := Document(before, v, after);
    assert js[..n][0..|before|] == js[0..|before|];
  }

  lemma {:induction false} OpensFirst(js: string, p: nat, cap: nat, kind: Kind)
    requires p < |js| && cap > 0 && ((kind == Array && js[p] == '[') || (kind == Object && js[p] == '{'))
    ensures Run(js, State(p, -1, []), cap) == Run(js, State(p + 1, 0, [Token(kind, p, -1, 0)]), cap)
  {
    hide Run;
    Opens(js, State(p, -1, []), cap, kind);
    assert [] + [Token(kind, p, -1, 0)] + [] == [Token(kind, p, -1, 0)];
  }

  lemma {:induction false} FirstToken(v: Json, p: nat)
    requires !Leaf(v)
    ensures Tokens(v, p)[0].end == p + |Write(v)| && Write(v)[0] == if v.List? then '[' else '{'
  {
  }

  // ----- broken texts

  /** Contents of a string up to some point. */
  lemma {:induction false} BodyGoesOn(js: string, p: nat, body: seq<Chunk>)
    requires ReadsAt(js, p, BodyText(body)) && p + |BodyText(body)| < |js| && forall i :: 0 <= i < |body| ==> ValidChunk(body[i])
    ensures StringEnd(js, p) == StringEnd(js, p + |BodyText(body)|)
    decreases |body|
  {
    if body == [] {
      assert BodyText(body) == "";
    } else {
      BodyStep(js, p, body);
      hide StringEnd, ValidChunk, BodyText, ChunkText, ReadsAt;
      BodyGoesOn(js, p + |ChunkText(body[0])|, body[1..]);
    }
  }

  /** A backslash and a character that is not one of the escapes, anywhere in a string. */
  lemma {:induction false} BadEscapeIsInvalid(before: string, body: seq<Chunk>, c: char, rest: string, cap: nat)
    requires Blanks(before) && (forall i :: 0 <= i < |body| ==> ValidChunk(body[i])) && !ValidChunk(Escape(c)) && c != 'u'
    ensures Run(before + ("\"" + (BodyText(body) + ("\\" + ([c] + rest)))), Fresh, cap).code == INVAL
  {
    var inner := BodyText(body) + ("\\" + ([c] + rest));
    var js := before + ("\"" + inner);
    hide StringEnd, PrimitiveEnd, BodyText, ValidChunk;
    assert js[0..|js|] == js;
    AtParts(js, 0, before, "\"" + inner);
    AtParts(js, |before|, "\"", inner);
    AtFirst(js, |before|, "\"");
    BadEscapeEnd(js, |before| + 1, body, c, rest);
    OverBlanks(js, Fresh, cap, before);
  }

  lemma {:induction false} BadEscapeEnd(js: string, p: nat, body: seq<Chunk>, c: char, rest: string)
    requires ReadsAt(js, p, BodyText(body) + ("\\" + ([c] + rest)))
    requires (forall i :: 0 <= i < |body| ==> ValidChunk(body[i])) && !ValidChunk(Escape(c)) && c != 'u'
    ensures StringEnd(js, p) == Invalid
  {
    hide BodyText;
    var q := p + |BodyText(body)|;
    AtParts(js, p, BodyText(body), "\\" + ([c] + rest));
    AtParts(js, q, "\\", [c] + rest);
    AtFirst(js, q, "\\");
    AtFirst(js, q + 1, [c] + rest);
    BodyGoesOn(js, p, body);
  }

  /** A character that is not printable, anywhere in a word. */
  lemma {:induction false} BadCharIsInvalid(before: string, text: string, c: char, rest: string, cap: nat)
    requires Blanks(before) && ValidWord(text) && (c as int < 32 || c as int >= 127) && c != '\0' && !Blank(c)
    ensures Run(before + (text + ([c] + rest)), Fresh, cap).code == INVAL
  {
    var js := before + (text + ([c] + rest));
    assert js[0..|js|] == js;
    AtParts(js, 0, before, text + ([c] + rest));
    AtParts(js, |before|, text, [c] + rest);
    AtFirst(js, |before|, text);
    AtFirst(js, |before| + |text|, [c] + rest);
    WordGoesOn(js, |before|, text);
    assert PrimitiveEnd(js, |before| + |text|) == Invalid;
    hide StringEnd, PrimitiveEnd;
    OverBlanks(js, Fresh, cap, before);
  }

  lemma {:induction false} WordGoesOn(js: string, p: nat, text: string)
    requires ReadsAt(js, p, text) && WordChars(text)
    ensures PrimitiveEnd(js, p) == PrimitiveEnd(js, p + |text|)
    decreases |text|
  {
    if text != "" {
      AtFirst(js, p, text);
      assert text == [text[0]] + text[1..];
      AtParts(js, p, [text[0]], text[1..]);
      WordGoesOn(js, p + 1, text[1..]);
    }
  }
}
