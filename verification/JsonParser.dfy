/** The token parser (thirdparty/jsmn/jsmn.h): jsmn_parse on a caller's token array, or
    on none for counting. */
module JsonParser {
  import opened JsonTokens
  import opened JsonText
  import opened JsonComplete

  class Parser {
    var pos: nat
    var toknext: nat
    var toksuper: int

    constructor ()
      ensures pos == 0 && toknext == 0 && toksuper == -1
    {
      pos, toknext, toksuper := 0, 0, -1;
    }

    ghost predicate Usable(tokens: array?<Token>, num: nat)
      reads this
    {
      -1 <= toksuper < toknext && (tokens != null ==> toknext <= num <= tokens.Length)
    }

    ghost function Abs(tokens: array<Token>): State
      requires toknext <= tokens.Length
      reads this, tokens
    {
      State(pos, toksuper, tokens[..toknext])
    }

    /** Allocate and fill the next token; fails if all are in use. */
    method Fill(tokens: array<Token>, num: nat, kind: Kind, start: int, end: int) returns (ok: bool)
      requires toknext <= num <= tokens.Length
      modifies `toknext, tokens
      ensures ok <==> old(toknext) < num
      ensures if ok then toknext == old(toknext) + 1 && tokens[..toknext] == old(tokens[..toknext]) + [Token(kind, start, end, 0)]
              else toknext == old(toknext) && tokens[..] == old(tokens[..])
    {
      if toknext >= num {
        return false;
      }
      tokens[toknext] := Token(kind, start, end, 0);
      toknext := toknext + 1;
      ok := true;
    }

    /** What a scanning routine leaves behind: `last` is the position it stops at. */
    twostate predicate Scanned(tokens: array?<Token>, num: nat, r: int, scan: Scan, kind: Kind, start: nat, last: int)
      requires old(toknext) <= num && (tokens != null ==> num <= tokens.Length)
      reads this, tokens
    {
      match scan
      case Invalid => r == INVAL && pos == old(pos) && toknext == old(toknext) && (tokens != null ==> tokens[..] == old(tokens[..]))
      case Partial => r == PART && pos == old(pos) && toknext == old(toknext) && (tokens != null ==> tokens[..] == old(tokens[..]))
      case At(end) =>
        if tokens == null then r == 0 && pos == last && toknext == old(toknext)
        else if old(toknext) >= num then r == NOMEM && pos == old(pos) && toknext == old(toknext) && tokens[..] == old(tokens[..])
        else
          && r == 0 && pos == last && toknext == old(toknext) + 1
          && tokens[..old(toknext) + 1] == old(tokens[..toknext]) + [Token(kind, start, end, 0)]
    }

    method ParsePrimitive(js: string, tokens: array?<Token>, num: nat) returns (r: int)
      requires Usable(tokens, num) && toknext <= num && !AtEnd(js, pos) && !Delimiter(js[pos])
      modifies `pos, `toknext, tokens
      ensures toknext <= num
      ensures var scan := PrimitiveEnd(js, old(pos));
              Scanned(tokens, num, r, scan, Primitive, old(pos), if scan.At? then scan.pos - 1 else 0)
    {
      hide PrimitiveEnd;
      var start := pos;
      while pos < |js| && js[pos] != '\0' && !Delimiter(js[pos])
        modifies `pos
        invariant start <= pos && PrimitiveEnd(js, start) == PrimitiveEnd(js, pos)
        invariant toknext == old(toknext)
        decreases |js| - pos
      {
        PrimitiveStep(js, pos);
        if Unprintable(js[pos]) {
          pos := start;
          return INVAL;
        }
        pos := pos + 1;
      }
      PrimitiveStep(js, pos);
      if tokens == null {
        pos := pos - 1;
        return 0;
      }
      var ok := Fill(tokens, num, Primitive, start, pos);
      if !ok {
        pos := start;
        return NOMEM;
      }
      pos := pos - 1;
      r := 0;
    }

    /** Up to four digits behind \u; leaves `pos` behind them. */
    method SkipHex(js: string) returns (ok: bool)
      modifies `pos
      ensures ok <==> HexEnd(js, old(pos), 4).At?
      ensures ok ==> pos == HexEnd(js, old(pos), 4).pos
    {
      var i := 0;
      while i < 4 && pos < |js| && js[pos] != '\0'
        invariant i <= 4 && HexEnd(js, pos, 4 - i) == HexEnd(js, old(pos), 4)
      {
        if !Hex(js[pos]) {
          return false;
        }
        pos := pos + 1;
        i := i + 1;
      }
      ok := true;
    }

    method ParseString(js: string, tokens: array?<Token>, num: nat) returns (r: int)
      requires Usable(tokens, num) && toknext <= num && !AtEnd(js, pos)
      modifies `pos, `toknext, tokens
      ensures toknext <= num
      ensures var scan := StringEnd(js, old(pos) + 1);
              Scanned(tokens, num, r, scan, String, old(pos) + 1, if scan.At? then scan.pos else 0)
    {
      hide StringEnd, HexEnd;
      var start := pos;
      pos := pos + 1;
      while pos < |js| && js[pos] != '\0'
        modifies `pos, `toknext, tokens
        invariant tokens != null ==> tokens[..] == old(tokens[..])
        invariant start < pos && StringEnd(js, start + 1) == StringEnd(js, pos)
        invariant toknext == old(toknext)
        decreases |js| - pos
      {
        StringStep(js, pos);
        var c := js[pos];
        if c == '\"' {
          if tokens == null {
            return 0;
          }
          var ok := Fill(tokens, num, String, start + 1, pos);
          if !ok {
            pos := start;
            return NOMEM;
          }
          return 0;
        }
        if c == '\\' && pos + 1 < |js| {
          pos := pos + 1;
          if js[pos] == 'u' {
            pos := pos + 1;
            var ok := SkipHex(js);
            if !ok {
              pos := start;
              return INVAL;
            }
            pos := pos - 1;
          } else if !Escaped(js[pos]) {
            pos := start;
            return INVAL;
          }
        }
        pos := pos + 1;
      }
      StringStep(js, pos);
      pos := start;
      r := PART;
    }

    /** The closest open token, from the last one down. */
    method FindLastOpen(tokens: array<Token>, from: nat) returns (i: int)
      requires from <= tokens.Length
      ensures i == LastOpen(tokens[..from])
    {
      i := from - 1;
      while i >= 0
        invariant -1 <= i < from && LastOpen(tokens[..i + 1]) == LastOpen(tokens[..from])
      {
        assert tokens[..i + 1][..i] == tokens[..i];
        if tokens[i].start != -1 && tokens[i].end == -1 {
          return;
        }
        i := i - 1;
      }
    }

    method FindLastOpenContainer(tokens: array<Token>) returns (i: int)
      requires toknext <= tokens.Length
      ensures i == LastOpenContainer(tokens[..toknext])
    {
      i := toknext - 1;
      while i >= 0
        invariant -1 <= i < toknext && LastOpenContainer(tokens[..i + 1]) == LastOpenContainer(tokens[..toknext])
      {
        assert tokens[..i + 1][..i] == tokens[..i];
        if tokens[i].kind == Array || tokens[i].kind == Object {
          if tokens[i].start != -1 && tokens[i].end == -1 {
            return;
          }
        }
        i := i - 1;
      }
    }

    /** A closing bracket: end the closest open token, which must be of its kind. */
    method Close(tokens: array<Token>, num: nat, kind: Kind) returns (r: int)
      requires Usable(tokens, num) && toknext <= num <= tokens.Length
      modifies `toksuper, tokens
      ensures match Closed(old(Abs(tokens)), kind)
              case Stop(code) => r == code && Abs(tokens) == old(Abs(tokens))
              case Next(st) => r == 0 && Abs(tokens).(pos := pos + 1) == st
      ensures -1 <= toksuper < toknext
    {
      hide LastOpen;
      var i := FindLastOpen(tokens, toknext);
      if i == -1 || tokens[i].kind != kind {
        return INVAL;
      }
      ghost var before := tokens[..toknext];
      toksuper := -1;
      tokens[i] := tokens[i].(end := pos + 1);
      assert tokens[..toknext] == before[i := before[i].(end := pos + 1)];
      var j := FindLastOpen(tokens, i);
      assert tokens[..i] == before[..i];
      if j >= 0 {
        toksuper := j;
      }
      r := 0;
    }

    method CountChild(tokens: array?<Token>)
      requires tokens != null ==> -1 <= toksuper < toknext <= tokens.Length
      modifies tokens
      ensures tokens != null ==> tokens[..toknext] == Grown(old(tokens[..toknext]), toksuper)
    {
      if toksuper != -1 && tokens != null {
        tokens[toksuper] := tokens[toksuper].(size := tokens[toksuper].size + 1);
      }
    }

    /** One character of the main loop. `counted` says whether it began a token. */
    method ParseChar(js: string, tokens: array?<Token>, num: nat) returns (r: int, counted: bool)
      requires Usable(tokens, num) && toknext <= num && !AtEnd(js, pos)
      modifies this, tokens
      ensures toknext <= num && (tokens != null ==> Usable(tokens, num))
      ensures tokens != null ==>
                match Step(js, old(Abs(tokens)), num)
                case Stop(code) => r == code && Abs(tokens) == old(Abs(tokens))
                case Next(st) => r == 0 && Abs(tokens) == st && toknext == old(toknext) + if counted then 1 else 0
      ensures tokens == null ==> toknext == old(toknext) && -1 <= toksuper < toknext
      ensures tokens == null && r >= 0 ==> r == 0 && pos > old(pos)
      ensures tokens == null ==> forall n: nat ::
                Dry(js, old(pos), n) == if r < 0 then r else Dry(js, pos, n + if counted then 1 else 0)
    {
      hide StringEnd, PrimitiveEnd, LastOpen, LastOpenContainer, Grown;
      var c := js[pos];
      counted, r := false, 0;
      if c == '{' || c == '[' {
        counted := true;
        if tokens != null {
          if toknext >= num {
            return NOMEM, true;
          }
          CountChild(tokens);
          var _ := Fill(tokens, num, if c == '{' then Object else Array, pos, -1);
          toksuper := toknext - 1;
        }
      } else if c == '}' || c == ']' {
        if tokens != null {
          r := Close(tokens, num, if c == '}' then Object else Array);
          if r < 0 {
            return;
          }
        }
      } else if c == '\"' {
        r := ParseString(js, tokens, num);
        if r < 0 {
          return;
        }
        counted := true;
        CountChild(tokens);
      } else if c == '\t' || c == '\r' || c == '\n' || c == ' ' {
      } else if c == ':' {
        toksuper := toknext - 1;
      } else if c == ',' {
        if tokens != null && toksuper != -1 && tokens[toksuper].kind != Array && tokens[toksuper].kind != Object {
          var i := FindLastOpenContainer(tokens);
          if i >= 0 {
            toksuper := i;
          }
        }
      } else {
        r := ParsePrimitive(js, tokens, num);
        if r < 0 {
          return;
        }
        counted := true;
        CountChild(tokens);
      }
      pos := pos + 1;
    }

    /** jsmn_parse: the number of tokens used so far, or an error. With a token array it
        does what Run says, and may be called again after an error; without one it
        counts. */
    method Parse(js: string, tokens: array?<Token>, num: nat) returns (r: int)
      requires Usable(tokens, num) && toknext <= num
      modifies this, tokens
      ensures tokens != null ==> Usable(tokens, num) && Result(r, Abs(tokens)) == Run(js, old(Abs(tokens)), num)
      ensures tokens == null ==> r == Dry(js, old(pos), old(toknext))
    {
      hide Step, LastOpen, Dry;
      var count := toknext;
      while pos < |js| && js[pos] != '\0'
        invariant toknext <= num && (tokens != null ==> Usable(tokens, num) && count == toknext)
        invariant tokens == null ==> -1 <= toksuper < toknext
        invariant tokens != null ==> Run(js, Abs(tokens), num) == Run(js, old(Abs(tokens)), num)
        invariant tokens == null ==> Dry(js, pos, count) == Dry(js, old(pos), old(toknext))
        decreases |js| - pos
      {
        if tokens != null {
          StepAdvances(js, Abs(tokens), num);
        }
        var counted;
        r, counted := ParseChar(js, tokens, num);
        if r < 0 {
          return;
        }
        count := count + if counted then 1 else 0;
      }
      DryEnd(js, pos, count);
      if tokens != null {
        var i := FindLastOpen(tokens, toknext);
        if i >= 0 {
          return PART;
        }
      }
      r := count;
    }
  }

  lemma {:induction false} PrimitiveStep(js: string, p: nat)
    ensures PrimitiveEnd(js, p) == if AtEnd(js, p) || Delimiter(js[p]) then At(p)
                                   else if Unprintable(js[p]) then Invalid else PrimitiveEnd(js, p + 1)
  {
  }

  lemma {:induction false} StringStep(js: string, p: nat)
    ensures AtEnd(js, p) ==> StringEnd(js, p) == Partial
    ensures !AtEnd(js, p) && js[p] == '\"' ==> StringEnd(js, p) == At(p)
    ensures !AtEnd(js, p) && js[p] == '\\' && p + 1 < |js| ==>
              && (Escaped(js[p + 1]) ==> StringEnd(js, p) == StringEnd(js, p + 2))
              && (js[p + 1] == 'u' ==>
                    StringEnd(js, p) == if HexEnd(js, p + 2, 4).At? then StringEnd(js, HexEnd(js, p + 2, 4).pos) else Invalid)
              && (!Escaped(js[p + 1]) && js[p + 1] != 'u' ==> StringEnd(js, p) == Invalid)
    ensures !AtEnd(js, p) && js[p] != '\"' && !(js[p] == '\\' && p + 1 < |js|) ==> StringEnd(js, p) == StringEnd(js, p + 1)
  {
    hide HexEnd;
  }

  lemma {:induction false} DryEnd(js: string, p: nat, count: nat)
    requires AtEnd(js, p)
    ensures Dry(js, p, count) == count
  {
  }

  // ----- how the parser is used

  /** Count first, then parse into an array of that size: it never runs out of tokens,
      and if it succeeds, the tokens are as many as counted, closed and nested. */
  method CountThenParse(js: string) returns (count: int, r: int, tokens: seq<Token>)
    ensures count == Dry(js, 0, 0)
    ensures count >= 0 ==> r != NOMEM && (r >= 0 ==> r == count == |tokens|)
    ensures count >= 0 && r >= 0 ==> Laminar(js, tokens, |js|) && forall i :: 0 <= i < |tokens| ==> tokens[i].end != -1
  {
    hide Dry, Run, Laminar;
    var counter := new Parser();
    count := counter.Parse(js, null, 0);
    tokens, r := [], 0;
    if count >= 0 {
      var parser := new Parser();
      var array_ := new Token[count](_ => Token(Undefined, -1, -1, 0));
      assert parser.Abs(array_) == Fresh;
      r := parser.Parse(js, array_, count);
      tokens := array_[..parser.toknext];
      CountedTokensSuffice(js, Fresh, count);
      if r >= 0 {
        DryRunAgrees(js, Fresh, count);
        NoTokensLaminar(js);
        SuccessIsNested(js, Fresh, count);
        RunStays(js, Fresh, count);
        LaminarAtEnd(js, tokens, parser.pos);
      }
    }
  }

  lemma {:induction false} NoTokensLaminar(js: string)
    ensures Laminar(js, Fresh.tokens, 0)
  {
  }

  lemma {:induction false} RunStays(js: string, st: State, cap: nat)
    requires ValidState(st) && st.pos <= |js|
    ensures Run(js, st, cap).st.pos <= |js|
    decreases |js| - st.pos
  {
    if !AtEnd(js, st.pos) {
      StepAdvances(js, st, cap);
      StepStays(js, st, cap);
      hide Step, LastOpen;
      if Step(js, st, cap).Next? {
        RunStays(js, Step(js, st, cap).st, cap);
      }
    }
  }

  lemma {:induction false} StepStays(js: string, st: State, cap: nat)
    requires ValidState(st) && !AtEnd(js, st.pos)
    ensures Step(js, st, cap).Next? ==> Step(js, st, cap).st.pos <= |js|
  {
    PrimitiveEndStays(js, st.pos);
    hide StringEnd, PrimitiveEnd, LastOpen, LastOpenContainer, Grown;
  }

  lemma {:induction false} PrimitiveEndStays(js: string, p: nat)
    requires p <= |js|
    ensures PrimitiveEnd(js, p).At? ==> PrimitiveEnd(js, p).pos <= |js|
    decreases |js| - p
  {
    if !AtEnd(js, p) && !Delimiter(js[p]) && !Unprintable(js[p]) {
      PrimitiveEndStays(js, p + 1);
    }
  }

  lemma {:induction false} LaminarAtEnd(js: string, tokens: seq<Token>, p: nat)
    requires Laminar(js, tokens, p) && p <= |js|
    ensures Laminar(js, tokens, |js|)
  {
  }

  /** Parse with few tokens; out of them, go on with a larger array that keeps the old
      ones: the result is that of one parse with the large array. */
  method ParseInTwoGoes(js: string, few: nat, many: nat) returns (r: int, tokens: seq<Token>)
    requires few <= many
    ensures var once := Run(js, Fresh, if Run(js, Fresh, few).code == NOMEM then many else few);
            r == once.code && tokens == once.st.tokens
  {
    hide Run;
    var parser := new Parser();
    var small := new Token[few](_ => Token(Undefined, -1, -1, 0));
    assert parser.Abs(small) == Fresh;
    r := parser.Parse(js, small, few);
    tokens := small[..parser.toknext];
    if r == NOMEM {
      Resumes(js, Fresh, few, many);
      var large := new Token[many](i requires 0 <= i < many => if i < |tokens| then tokens[i] else Token(Undefined, -1, -1, 0));
      assert large[..parser.toknext] == tokens;
      r := parser.Parse(js, large, many);
      tokens := large[..parser.toknext];
    }
  }

  /** The text of a value, read with a given number of tokens: the very tokens of the value,
      as many as counting says, or an error if there are too few. */
  method ReadDocument(before: string, v: Json, after: string, num: nat) returns (count: int, r: int, tokens: seq<Token>)
    requires Blanks(before) && Blanks(after) && Valid(v)
    ensures count == |Tokens(v, |before|)|
    ensures num >= count ==> r == count && tokens == Tokens(v, |before|)
    ensures num < count ==> r == NOMEM
  {
    hide Dry, Run, Write, Tokens, Valid;
    var js := Document(before, v, after);
    var counter := new Parser();
    count := counter.Parse(js, null, 0);
    var parser := new Parser();
    var array_ := new Token[num](_ => Token(Undefined, -1, -1, 0));
    assert parser.Abs(array_) == Fresh;
    r := parser.Parse(js, array_, num);
    tokens := array_[..parser.toknext];
    Complete(before, v, after, |Tokens(v, |before|)|);
    DryRunAgrees(js, Fresh, |Tokens(v, |before|)|);
    if num < count {
      TooFewTokens(before, v, after, num);
    } else {
      Complete(before, v, after, num);
    }
  }
}
