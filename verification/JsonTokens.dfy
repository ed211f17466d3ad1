/** What the token parser computes (thirdparty/jsmn/jsmn.h, without strict mode and
    parent links): scanning of strings and primitives, one step per character, and
    whole runs with a limited number of tokens. */
module JsonTokens {
  datatype Kind = Undefined | Object | Array | String | Primitive

  /** `end` is -1 while an object or array is open. */
  datatype Token = Token(kind: Kind, start: int, end: int, size: int)

  const NOMEM := -1
  const INVAL := -2
  const PART := -3

  /** Position, index of the enclosing token or -1, and the tokens allocated. */
  datatype State = State(pos: nat, super: int, tokens: seq<Token>)

  predicate ValidState(st: State) {
    -1 <= st.super < |st.tokens|
  }

  predicate AtEnd(js: string, p: nat) {
    p >= |js| || js[p] == '\0'
  }

  // ----- scanning

  datatype Scan = At(pos: nat) | Invalid | Partial

  predicate Delimiter(c: char) {
    c == ':' || c == '\t' || c == '\r' || c == '\n' || c == ' ' || c == ',' || c == ']' || c == '}'
  }

  predicate Unprintable(c: char) {
    c as int < 32 || c as int >= 127
  }

  function PrimitiveEnd(js: string, p: nat): (s: Scan)
    ensures !s.Partial? && (s.At? ==> p <= s.pos && (p < |js| && !AtEnd(js, p) && !Delimiter(js[p]) ==> p < s.pos))
    decreases |js| - p
  {
    if AtEnd(js, p) || Delimiter(js[p]) then At(p)
    else if Unprintable(js[p]) then Invalid
    else PrimitiveEnd(js, p + 1)
  }

  predicate Hex(c: char) {
    '0' <= c <= '9' || 'A' <= c <= 'F' || 'a' <= c <= 'f'
  }

  /** Up to `n` hexadecimal digits. */
  function HexEnd(js: string, p: nat, n: nat): (s: Scan)
    ensures !s.Partial? && (s.At? ==> p <= s.pos <= p + n && (p <= |js| ==> s.pos <= |js|))
    decreases n
  {
    if n == 0 || AtEnd(js, p) then At(p)
    else if !Hex(js[p]) then Invalid
    else HexEnd(js, p + 1, n - 1)
  }

  predicate Escaped(c: char) {
    c == '\"' || c == '/' || c == '\\' || c == 'b' || c == 'f' || c == 'r' || c == 'n' || c == 't'
  }

  /** The closing quote of a string whose contents begin at `p`. */
  function StringEnd(js: string, p: nat): (s: Scan)
    ensures s.At? ==> p <= s.pos < |js|
    decreases |js| - p
  {
    if AtEnd(js, p) then Partial
    else if js[p] == '\"' then At(p)
    else if js[p] == '\\' && p + 1 < |js| then
      if Escaped(js[p + 1]) then StringEnd(js, p + 2)
      else if js[p + 1] == 'u' then
        match HexEnd(js, p + 2, 4)
        case At(q) => StringEnd(js, q)
        case _ => Invalid
      else Invalid
    else StringEnd(js, p + 1)
  }

  // ----- one step

  predicate Open(t: Token) {
    t.start != -1 && t.end == -1
  }

  function LastOpen(tokens: seq<Token>): (i: int)
    ensures -1 <= i < |tokens|
    ensures i >= 0 ==> Open(tokens[i])
    ensures forall k :: i < k < |tokens| ==> !Open(tokens[k])
  {
    if tokens == [] then -1
    else if Open(tokens[|tokens| - 1]) then |tokens| - 1
    else LastOpen(tokens[..|tokens| - 1])
  }

  function LastOpenContainer(tokens: seq<Token>): (i: int)
    ensures -1 <= i < |tokens|
  {
    if tokens == [] then -1
    else
      var t := tokens[|tokens| - 1];
      if (t.kind == Array || t.kind == Object) && Open(t) then |tokens| - 1
      else LastOpenContainer(tokens[..|tokens| - 1])
  }

  /** One more child of the enclosing token. */
  function Grown(tokens: seq<Token>, super: int): (r: seq<Token>)
    requires -1 <= super < |tokens|
    ensures |r| == |tokens|
  {
    if super == -1 then tokens else tokens[super := tokens[super].(size := tokens[super].size + 1)]
  }

  datatype Outcome = Next(st: State) | Stop(code: int)

  function Added(st: State, cap: nat, scan: Scan, kind: Kind, start: int, resume: nat): Outcome
    requires ValidState(st)
  {
    match scan
    case Invalid => Stop(INVAL)
    case Partial => Stop(PART)
    case At(end) =>
      if |st.tokens| >= cap then Stop(NOMEM)
      else Next(State(resume, st.super, Grown(st.tokens + [Token(kind, start, end, 0)], st.super)))
  }

  function Closed(st: State, kind: Kind): Outcome
    requires ValidState(st)
  {
    var i := LastOpen(st.tokens);
    if i == -1 || st.tokens[i].kind != kind then Stop(INVAL)
    else Next(State(st.pos + 1, LastOpen(st.tokens[..i]), st.tokens[i := st.tokens[i].(end := st.pos + 1)]))
  }

  function Comma(st: State): State
    requires ValidState(st)
  {
    var c := LastOpenContainer(st.tokens);
    if st.super != -1 && st.tokens[st.super].kind != Array && st.tokens[st.super].kind != Object && c != -1
    then State(st.pos + 1, c, st.tokens)
    else st.(pos := st.pos + 1)
  }

  function Opened(st: State, cap: nat, kind: Kind): Outcome
    requires ValidState(st)
  {
    if |st.tokens| >= cap then Stop(NOMEM)
    else Next(State(st.pos + 1, |st.tokens|, Grown(st.tokens, st.super) + [Token(kind, st.pos, -1, 0)]))
  }

  function After(s: Scan): nat {
    if s.At? then s.pos + 1 else 0
  }

  function Step(js: string, st: State, cap: nat): Outcome
    requires ValidState(st) && !AtEnd(js, st.pos)
  {
    var c := js[st.pos];
    if c == '{' then Opened(st, cap, Object)
    else if c == '[' then Opened(st, cap, Array)
    else if c == '}' then Closed(st, Object)
    else if c == ']' then Closed(st, Array)
    else if c == '\"' then
      var s := StringEnd(js, st.pos + 1);
      Added(st, cap, s, String, st.pos + 1, After(s))
    else if c == '\t' || c == '\r' || c == '\n' || c == ' ' then Next(st.(pos := st.pos + 1))
    else if c == ':' then Next(State(st.pos + 1, |st.tokens| - 1, st.tokens))
    else if c == ',' then Next(Comma(st))
    else
      var s := PrimitiveEnd(js, st.pos);
      Added(st, cap, s, Primitive, st.pos, if s.At? then s.pos else 0)
  }

  lemma {:induction false} StepAdvances(js: string, st: State, cap: nat)
    requires ValidState(st) && !AtEnd(js, st.pos)
    ensures Step(js, st, cap).Next? ==> ValidState(Step(js, st, cap).st) && st.pos < Step(js, st, cap).st.pos
    ensures Step(js, st, cap).Stop? ==> Step(js, st, cap).code in {NOMEM, INVAL, PART}
  {
    hide StringEnd, PrimitiveEnd, LastOpen, LastOpenContainer;
  }

  // ----- a run

  datatype Result = Result(code: int, st: State)

  function Run(js: string, st: State, cap: nat): Result
    requires ValidState(st)
    decreases |js| - st.pos
  {
    if AtEnd(js, st.pos) then Result(if LastOpen(st.tokens) == -1 then |st.tokens| else PART, st)
    else
      StepAdvances(js, st, cap);
      match Step(js, st, cap)
      case Next(next) => Run(js, next, cap)
      case Stop(code) => Result(code, st)
  }

  const Fresh := State(0, -1, [])

  /** Counting only, as with a null token array. */
  function Dry(js: string, p: nat, count: nat): int
    decreases |js| - p
  {
    if AtEnd(js, p) then count
    else
      var c := js[p];
      if c == '{' || c == '[' then Dry(js, p + 1, count + 1)
      else if c == '\"' then
        match StringEnd(js, p + 1)
        case At(end) => Dry(js, end + 1, count + 1)
        case Invalid => INVAL
        case Partial => PART
      else if c == '}' || c == ']' || c == '\t' || c == '\r' || c == '\n' || c == ' ' || c == ':' || c == ',' then
        Dry(js, p + 1, count)
      else
        match PrimitiveEnd(js, p)
        case At(end) => Dry(js, end, count + 1)
        case _ => INVAL
  }

  // ----- resuming after running out of tokens

  lemma {:induction false} MoreTokensSameStep(js: string, st: State, few: nat, many: nat)
    requires ValidState(st) && !AtEnd(js, st.pos) && few <= many
    ensures Step(js, st, few) != Stop(NOMEM) ==> Step(js, st, many) == Step(js, st, few)
  {
    hide StringEnd, PrimitiveEnd, LastOpen, LastOpenContainer, Grown;
  }

  /** A run that stopped for lack of tokens, continued with more of them, ends as one
      run with the larger number would have. */
  lemma {:induction false} Resumes(js: string, st: State, few: nat, many: nat)
    requires ValidState(st) && few <= many && Run(js, st, few).code == NOMEM
    ensures ValidState(Run(js, st, few).st)
    ensures Run(js, Run(js, st, few).st, many) == Run(js, st, many)
    decreases |js| - st.pos
  {
    hide Step, LastOpen;
    if !AtEnd(js, st.pos) {
      StepAdvances(js, st, few);
      MoreTokensSameStep(js, st, few, many);
      match Step(js, st, few)
      case Next(next) => Resumes(js, next, few, many);
      case Stop(_) =>
    }
  }

  // ----- counting

  /** A successful run finds as many tokens as counting does. */
  lemma {:induction false} DryRunAgrees(js: string, st: State, cap: nat)
    requires ValidState(st) && Run(js, st, cap).code >= 0
    ensures Dry(js, st.pos, |st.tokens|) == Run(js, st, cap).code == |Run(js, st, cap).st.tokens|
    decreases |js| - st.pos
  {
    hide StringEnd, PrimitiveEnd, LastOpen, LastOpenContainer, Grown;
    if !AtEnd(js, st.pos) {
      StepAdvances(js, st, cap);
      DryRunAgrees(js, Step(js, st, cap).st, cap);
    }
  }

  lemma {:induction false} DryGrows(js: string, p: nat, count: nat)
    ensures Dry(js, p, count) >= 0 ==> Dry(js, p, count) >= count
    decreases |js| - p
  {
    hide StringEnd, PrimitiveEnd;
    if !AtEnd(js, p) {
      var c := js[p];
      if c == '{' || c == '[' {
        DryGrows(js, p + 1, count + 1);
      } else if c == '\"' {
        if StringEnd(js, p + 1).At? {
          DryGrows(js, StringEnd(js, p + 1).pos + 1, count + 1);
        }
      } else if c == '}' || c == ']' || c == '\t' || c == '\r' || c == '\n' || c == ' ' || c == ':' || c == ',' {
        DryGrows(js, p + 1, count);
      } else if PrimitiveEnd(js, p).At? {
        DryGrows(js, PrimitiveEnd(js, p).pos, count + 1);
      }
    }
  }

  /** As many tokens as were counted are enough. */
  lemma {:induction false} CountedTokensSuffice(js: string, st: State, cap: nat)
    requires ValidState(st) && 0 <= Dry(js, st.pos, |st.tokens|) <= cap
    ensures Run(js, st, cap).code != NOMEM
    decreases |js| - st.pos
  {
    if !AtEnd(js, st.pos) {
      StepAdvances(js, st, cap);
      StepCounted(js, st, cap);
      hide Step, Dry, LastOpen;
      if Step(js, st, cap).Next? {
        CountedTokensSuffice(js, Step(js, st, cap).st, cap);
      }
    }
  }

  lemma {:induction false} StepCounted(js: string, st: State, cap: nat)
    requires ValidState(st) && !AtEnd(js, st.pos) && 0 <= Dry(js, st.pos, |st.tokens|) <= cap
    ensures Step(js, st, cap) != Stop(NOMEM)
    ensures Step(js, st, cap).Next? ==>
              Dry(js, Step(js, st, cap).st.pos, |Step(js, st, cap).st.tokens|) == Dry(js, st.pos, |st.tokens|)
  {
    hide StringEnd, PrimitiveEnd, LastOpen, LastOpenContainer, Grown;
    var p, n := st.pos, |st.tokens|;
    if n >= cap {
      DryGrows(js, p + 1, n + 1);
      if StringEnd(js, p + 1).At? {
        DryGrows(js, StringEnd(js, p + 1).pos + 1, n + 1);
      }
      if PrimitiveEnd(js, p).At? {
        DryGrows(js, PrimitiveEnd(js, p).pos, n + 1);
      }
    }
  }

  // ----- nesting

  /** The token stands where the text says so; everything so far is before `p`. */
  predicate Placed(js: string, t: Token, p: nat) {
    && 0 <= t.start < p && t.start < |js|
    && (t.end == -1 || t.start <= t.end <= p)
    && match t.kind
       case Object => js[t.start] == '{' && (t.end != -1 ==> t.start < t.end <= |js| && js[t.end - 1] == '}')
       case Array => js[t.start] == '[' && (t.end != -1 ==> t.start < t.end <= |js| && js[t.end - 1] == ']')
       case String => t.start > 0 && js[t.start - 1] == '\"' && t.end != -1 && t.end < |js| && js[t.end] == '\"'
       case Primitive => t.start < t.end
       case Undefined => false
  }

  /** Two tokens in order of allocation: apart, or the later one inside the other. */
  predicate Nested(a: Token, b: Token) {
    && a.start < b.start
    && (a.end != -1 ==> a.end <= b.start || (b.end != -1 && b.end <= a.end))
  }

  predicate Laminar(js: string, tokens: seq<Token>, p: nat) {
    && (forall i :: 0 <= i < |tokens| ==> Placed(js, tokens[i], p))
    && forall i, j :: 0 <= i < j < |tokens| ==> Nested(tokens[i], tokens[j])
  }

  lemma {:induction false} StepKeepsLaminar(js: string, st: State, cap: nat)
    requires ValidState(st) && !AtEnd(js, st.pos) && Laminar(js, st.tokens, st.pos) && Step(js, st, cap).Next?
    ensures Laminar(js, Step(js, st, cap).st.tokens, Step(js, st, cap).st.pos)
  {
    hide StringEnd, PrimitiveEnd, LastOpen, LastOpenContainer;
    var c := js[st.pos];
    if c == '{' {
      OpenedLaminar(js, st, cap, Object);
    } else if c == '[' {
      OpenedLaminar(js, st, cap, Array);
    } else if c == '}' {
      ClosedLaminar(js, st, Object);
    } else if c == ']' {
      ClosedLaminar(js, st, Array);
    } else if c == '\"' {
      StringEndQuote(js, st.pos + 1);
      AddedLaminar(js, st, cap, StringEnd(js, st.pos + 1), String, st.pos + 1, After(StringEnd(js, st.pos + 1)));
    } else if c == '\t' || c == '\r' || c == '\n' || c == ' ' || c == ':' || c == ',' {
      LaterLaminar(js, st.tokens, st.pos);
    } else {
      AddedLaminar(js, st, cap, PrimitiveEnd(js, st.pos), Primitive, st.pos, PrimitiveEnd(js, st.pos).pos);
    }
  }

  lemma {:induction false} LaterLaminar(js: string, tokens: seq<Token>, p: nat)
    requires Laminar(js, tokens, p)
    ensures Laminar(js, tokens, p + 1)
  {
  }

  lemma {:induction false} StringEndQuote(js: string, p: nat)
    ensures StringEnd(js, p).At? ==> js[StringEnd(js, p).pos] == '\"'
    decreases |js| - p
  {
    hide HexEnd;
    if !AtEnd(js, p) && js[p] != '\"' {
      if js[p] == '\\' && p + 1 < |js| {
        if Escaped(js[p + 1]) {
          StringEndQuote(js, p + 2);
        } else if js[p + 1] == 'u' && HexEnd(js, p + 2, 4).At? {
          StringEndQuote(js, HexEnd(js, p + 2, 4).pos);
        }
      } else {
        StringEndQuote(js, p + 1);
      }
    }
  }

  /** Sizes do not matter to the spans. */
  lemma {:induction false} GrownLaminar(js: string, tokens: seq<Token>, super: int, p: nat)
    requires -1 <= super < |tokens|
    ensures Laminar(js, Grown(tokens, super), p) <==> Laminar(js, tokens, p)
  {
    var r := Grown(tokens, super);
    assert forall i :: 0 <= i < |r| ==> (Placed(js, r[i], p) <==> Placed(js, tokens[i], p));
    assert forall i, j :: 0 <= i < j < |r| ==> (Nested(r[i], r[j]) <==> Nested(tokens[i], tokens[j]));
  }

  lemma {:induction false} AppendLaminar(js: string, tokens: seq<Token>, t: Token, p: nat, next: nat)
    requires Laminar(js, tokens, p) && p <= next && t.start >= p && Placed(js, t, next)
    ensures Laminar(js, tokens + [t], next)
  {
  }

  lemma {:induction false} AddedLaminar(js: string, st: State, cap: nat, scan: Scan, kind: Kind, start: nat, resume: nat)
    requires ValidState(st) && Laminar(js, st.tokens, st.pos) && Added(st, cap, scan, kind, start, resume).Next?
    requires scan.At? ==> start >= st.pos && Placed(js, Token(kind, start, scan.pos, 0), resume)
    ensures Laminar(js, Added(st, cap, scan, kind, start, resume).st.tokens, resume)
  {
    var t := Token(kind, start, scan.pos, 0);
    hide Placed, Grown;
    AppendLaminar(js, st.tokens, t, st.pos, resume);
    GrownLaminar(js, st.tokens + [t], st.super, resume);
  }

  lemma {:induction false} OpenedLaminar(js: string, st: State, cap: nat, kind: Kind)
    requires ValidState(st) && !AtEnd(js, st.pos) && Laminar(js, st.tokens, st.pos) && Opened(st, cap, kind).Next?
    requires (kind == Object && js[st.pos] == '{') || (kind == Array && js[st.pos] == '[')
    ensures Laminar(js, Opened(st, cap, kind).st.tokens, st.pos + 1)
  {
    hide Grown;
    GrownLaminar(js, st.tokens, st.super, st.pos);
    AppendLaminar(js, Grown(st.tokens, st.super), Token(kind, st.pos, -1, 0), st.pos, st.pos + 1);
  }

  lemma {:induction false} ClosedLaminar(js: string, st: State, kind: Kind)
    requires ValidState(st) && !AtEnd(js, st.pos) && Laminar(js, st.tokens, st.pos) && Closed(st, kind).Next?
    requires (kind == Object && js[st.pos] == '}') || (kind == Array && js[st.pos] == ']')
    ensures Laminar(js, Closed(st, kind).st.tokens, st.pos + 1)
  {
    hide LastOpen;
    var i := LastOpen(st.tokens);
    var after := Closed(st, kind).st.tokens;
    forall a, b | 0 <= a < b < |after|
      ensures Nested(after[a], after[b])
    {
      assert Nested(st.tokens[a], st.tokens[b]) && Placed(js, st.tokens[b], st.pos);
    }
  }

  /** Success means: all tokens closed, any two of them nested or apart, each delimited
      in the text as its kind demands. */
  lemma {:induction false} SuccessIsNested(js: string, st: State, cap: nat)
    requires ValidState(st) && Laminar(js, st.tokens, st.pos) && Run(js, st, cap).code >= 0
    ensures var tokens := Run(js, st, cap).st.tokens;
            && Laminar(js, tokens, Run(js, st, cap).st.pos)
            && forall i :: 0 <= i < |tokens| ==> tokens[i].end != -1
    decreases |js| - st.pos
  {
    hide Step, Laminar, LastOpen;
    if AtEnd(js, st.pos) {
      AllClosed(js, st.tokens, st.pos);
    } else {
      StepAdvances(js, st, cap);
      StepKeepsLaminar(js, st, cap);
      SuccessIsNested(js, Step(js, st, cap).st, cap);
    }
  }

  lemma {:induction false} AllClosed(js: string, tokens: seq<Token>, p: nat)
    requires Laminar(js, tokens, p) && LastOpen(tokens) == -1
    ensures forall i :: 0 <= i < |tokens| ==> tokens[i].end != -1
  {
    hide LastOpen;
    forall i | 0 <= i < |tokens|
      ensures tokens[i].end != -1
    {
      assert Placed(js, tokens[i], p) && !Open(tokens[i]);
    }
  }
}
