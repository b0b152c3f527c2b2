/**
 sds.c: the printer sdscatrepr as a function on bytes, and the parser
 sdssplitargs, which is meant to read back what the printer wrote.
 */
module SdsRepr {
  import opened Common
  import opened SdsSplit

  const QUOTE: byte := 34
  const SINGLE: byte := 39
  const SLASH: byte := 92

  /** isprint and isspace of the C locale; a byte above 127 is neither. */
  predicate IsPrint(c: byte) {
    32 <= c <= 126
  }

  predicate IsSpace(c: byte) {
    c == 32 || 9 <= c <= 13
  }

  // ---------------------------------------------------------------- printer

  function HexDigit(d: nat): byte
    requires d < 16
  {
    if d < 10 then 48 + d else 87 + d
  }

  /** One byte of the string, escaped. */
  function Escape(c: byte): (r: seq<byte>)
    ensures r != []
  {
    if c == SLASH || c == QUOTE then [SLASH, c]
    else if c == 10 then [SLASH, 110]
    else if c == 13 then [SLASH, 114]
    else if c == 9 then [SLASH, 116]
    else if c == 7 then [SLASH, 97]
    else if c == 8 then [SLASH, 98]
    else if IsPrint(c) then [c]
    else [SLASH, 120, HexDigit(c / 16), HexDigit(c % 16)]
  }

  /**
   What is printed: nothing but printable characters, the shortest form for each
   byte, and small digits.
   */
  lemma EscapeLaw(c: byte)
    ensures forall b :: b in Escape(c) ==> IsPrint(b)
    ensures |Escape(c)| == 1 <==> IsPrint(c) && c != SLASH && c != QUOTE
    ensures |Escape(c)| == 2 <==> c in {SLASH, QUOTE, 7, 8, 9, 10, 13}
    ensures |Escape(c)| != 1 ==> Escape(c)[0] == SLASH
    ensures |Escape(c)| > 2 ==> |Escape(c)| == 4 && forall b :: b in Escape(c) ==> !(65 <= b <= 90)
  {
  }

  function Escaped(p: seq<byte>): seq<byte> {
    if p == [] then [] else Escape(p[0]) + Escaped(p[1..])
  }

  function Quoted(p: seq<byte>): seq<byte> {
    [QUOTE] + Escaped(p) + [QUOTE]
  }

  // ----------------------------------------------------------------- parser

  predicate IsHexDigit(c: byte) {
    48 <= c <= 57 || 97 <= c <= 102 || 65 <= c <= 70
  }

  function HexValue(c: byte): (d: nat)
    ensures d < 16
  {
    if 48 <= c <= 57 then c - 48 else if 97 <= c <= 102 then c - 87 else if 65 <= c <= 70 then c - 55 else 0
  }

  function Unescape(c: byte): byte {
    if c == 110 then 10 else if c == 114 then 13 else if c == 116 then 9
    else if c == 98 then 8 else if c == 97 then 7 else c
  }

  /** `line[i]` of a C string. */
  function At(line: seq<byte>, i: nat): (c: byte)
    ensures c != 0 ==> i < |line|
  {
    if i < |line| then line[i] else 0
  }

  datatype Mode = Plain | InDouble | InSingle

  datatype Token = Token(text: seq<byte>, next: nat) | Unbalanced

  /** A hexadecimal escape stands at i. */
  predicate IsHexEscape(line: seq<byte>, i: nat) {
    && At(line, i) == SLASH && At(line, i + 1) == 120
    && IsHexDigit(At(line, i + 2)) && IsHexDigit(At(line, i + 3))
  }

  function HexByte(line: seq<byte>, i: nat): byte {
    HexValue(At(line, i + 2)) * 16 + HexValue(At(line, i + 3))
  }

  /** A quote may be closed before a blank or the end of the line only. */
  predicate ClosesWell(line: seq<byte>, i: nat) {
    At(line, i + 1) == 0 || IsSpace(At(line, i + 1))
  }

  /** The rest of a token from i on, after text. */
  function Rest(line: seq<byte>, i: nat, mode: Mode, text: seq<byte>): (t: Token)
    ensures t.Token? ==> i <= t.next && (t.next > i || (mode == Plain && At(line, i) == 0))
    decreases |line| - i
  {
    var c := At(line, i);
    match mode
    case InDouble =>
      if IsHexEscape(line, i) then Rest(line, i + 4, mode, text + [HexByte(line, i)])
      else if c == SLASH && At(line, i + 1) != 0 then Rest(line, i + 2, mode, text + [Unescape(At(line, i + 1))])
      else if c == QUOTE then if ClosesWell(line, i) then Token(text, i + 1) else Unbalanced
      else if c == 0 then Unbalanced
      else Rest(line, i + 1, mode, text + [c])
    case InSingle =>
      if c == SLASH && At(line, i + 1) == SINGLE then Rest(line, i + 2, mode, text + [SINGLE])
      else if c == SINGLE then if ClosesWell(line, i) then Token(text, i + 1) else Unbalanced
      else if c == 0 then Unbalanced
      else Rest(line, i + 1, mode, text + [c])
    case Plain =>
      if c == 0 then Token(text, i)
      else if c == 32 || c == 10 || c == 13 || c == 9 then Token(text, i + 1)
      else if c == QUOTE then Rest(line, i + 1, InDouble, text)
      else if c == SINGLE then Rest(line, i + 1, InSingle, text)
      else Rest(line, i + 1, mode, text + [c])
  }

  function SkipBlanks(line: seq<byte>, i: nat): (k: nat)
    ensures i <= k && (At(line, k) == 0 || !IsSpace(At(line, k)))
    decreases |line| - i
  {
    if At(line, i) != 0 && IsSpace(At(line, i)) then SkipBlanks(line, i + 1) else i
  }

  /** The tokens from i on; None for unbalanced quotes. */
  function Tokens(line: seq<byte>, i: nat): Option<seq<seq<byte>>>
    decreases |line| - i
  {
    var k := SkipBlanks(line, i);
    if At(line, k) == 0 then Some([]) else
    match Rest(line, k, Plain, [])
    case Unbalanced => None
    case Token(text, next) =>
      match Tokens(line, next)
      case None => None
      case Some(more) => Some([text] + more)
  }

  // -------------------------------------------------------- sdssplitargs

  /** sdssplitargs. None stands for NULL. */
  method SplitArgs(line: seq<byte>) returns (r: Option<seq<seq<byte>>>)
    ensures r == Tokens(line, 0)
  {
    hide Rest, SkipBlanks, Tokens, Rests, Leads;
    var p := 0;
    var vector: seq<seq<byte>> := [];
    LeadsStart(line);
    while true
      invariant Leads(line, p, vector)
      decreases |line| - p
    {
      ghost var from := p;
      while At(line, p) != 0 && IsSpace(At(line, p))
        invariant from <= p && SkipBlanks(line, p) == SkipBlanks(line, from)
        decreases |line| - p
      {
        SkipOne(line, p);
        p := p + 1;
      }
      SkipOne(line, p);
      if At(line, p) == 0 {
        LeadsEnd(line, from, vector);
        return Some(vector);
      }
      ghost var first := p;
      var inq, insq, done := false, false, false;
      var current: seq<byte> := [];
      RestsStart(line, first);
      while !done
        invariant first <= p && !(inq && insq) && (At(line, p) == 0 && !done ==> p > first)
        invariant if done then Rest(line, first, Plain, []) == Token(current, p) && p > first
                  else Rests(line, first, p, ModeOf(inq, insq), current)
        decreases !done, |line| - p
      {
        RestsTurn(line, first, p, ModeOf(inq, insq), current);
        if inq {
          if At(line, p) == SLASH && At(line, p + 1) == 120
             && IsHexDigit(At(line, p + 2)) && IsHexDigit(At(line, p + 3))
          {
            var b: byte := HexValue(At(line, p + 2)) * 16 + HexValue(At(line, p + 3));
            current := current + [b];
            p := p + 3;
          } else if At(line, p) == SLASH && At(line, p + 1) != 0 {
            p := p + 1;
            current := current + [Unescape(At(line, p))];
          } else if At(line, p) == QUOTE {
            if At(line, p + 1) != 0 && !IsSpace(At(line, p + 1)) {
              LeadsError(line, from, vector);
              return None;
            }
            done := true;
          } else if At(line, p) == 0 {
            LeadsError(line, from, vector);
            return None;
          } else {
            current := current + [At(line, p)];
          }
        } else if insq {
          if At(line, p) == SLASH && At(line, p + 1) == SINGLE {
            p := p + 1;
            current := current + [SINGLE];
          } else if At(line, p) == SINGLE {
            if At(line, p + 1) != 0 && !IsSpace(At(line, p + 1)) {
              LeadsError(line, from, vector);
              return None;
            }
            done := true;
          } else if At(line, p) == 0 {
            LeadsError(line, from, vector);
            return None;
          } else {
            current := current + [At(line, p)];
          }
        } else {
          var c := At(line, p);
          if c == 32 || c == 10 || c == 13 || c == 9 || c == 0 {
            done := true;
          } else if c == QUOTE {
            inq := true;
          } else if c == SINGLE {
            insq := true;
          } else {
            current := current + [c];
          }
        }
        if At(line, p) != 0 {
          p := p + 1;
        }
      }
      LeadsToken(line, from, vector, current, p);
      vector := vector + [current];
    }
  }

  function ModeOf(inq: bool, insq: bool): Mode {
    if inq then InDouble else if insq then InSingle else Plain
  }

  /** The tokens of the line are those read so far and those from p on. */
  ghost predicate Leads(line: seq<byte>, p: nat, vector: seq<seq<byte>>) {
    Tokens(line, 0) == match Tokens(line, p) case None => None case Some(more) => Some(vector + more)
  }

  ghost predicate Rests(line: seq<byte>, first: nat, p: nat, mode: Mode, text: seq<byte>) {
    Rest(line, first, Plain, []) == Rest(line, p, mode, text)
  }

  lemma LeadsStart(line: seq<byte>)
    ensures Leads(line, 0, [])
  {
    hide Tokens;
    if Tokens(line, 0).Some? {
      assert [] + Tokens(line, 0).value == Tokens(line, 0).value;
    }
  }

  lemma LeadsEnd(line: seq<byte>, p: nat, vector: seq<seq<byte>>)
    requires Leads(line, p, vector) && At(line, SkipBlanks(line, p)) == 0
    ensures Tokens(line, 0) == Some(vector)
  {
    assert Tokens(line, p) == Some([]);
    assert vector + [] == vector;
  }

  lemma LeadsError(line: seq<byte>, p: nat, vector: seq<seq<byte>>)
    requires Leads(line, p, vector) && At(line, SkipBlanks(line, p)) != 0
    requires Rest(line, SkipBlanks(line, p), Plain, []).Unbalanced?
    ensures Tokens(line, 0) == None
  {
    assert Tokens(line, p) == None;
  }

  lemma LeadsToken(line: seq<byte>, p: nat, vector: seq<seq<byte>>, text: seq<byte>, next: nat)
    requires Leads(line, p, vector) && At(line, SkipBlanks(line, p)) != 0
    requires Rest(line, SkipBlanks(line, p), Plain, []) == Token(text, next)
    ensures Leads(line, next, vector + [text])
  {
    hide Rest, SkipBlanks;
    TokensToken(line, p, text, next);
    if Tokens(line, next).Some? {
      var more := Tokens(line, next).value;
      assert vector + ([text] + more) == vector + [text] + more;
    }
  }

  lemma TokensToken(line: seq<byte>, p: nat, text: seq<byte>, next: nat)
    requires At(line, SkipBlanks(line, p)) != 0
    requires Rest(line, SkipBlanks(line, p), Plain, []) == Token(text, next)
    ensures Tokens(line, p) == match Tokens(line, next) case None => None case Some(more) => Some([text] + more)
  {
    hide Rest, SkipBlanks;
  }

  lemma SkipOne(line: seq<byte>, i: nat)
    ensures SkipBlanks(line, i) == if At(line, i) != 0 && IsSpace(At(line, i)) then SkipBlanks(line, i + 1) else i
  {
  }

  lemma RestsStart(line: seq<byte>, first: nat)
    ensures Rests(line, first, first, Plain, [])
  {
  }

  /** One turn of the inner loop, case by case. */
  lemma RestsTurn(line: seq<byte>, first: nat, i: nat, mode: Mode, text: seq<byte>)
    requires Rests(line, first, i, mode, text)
    ensures var c, t := At(line, i), Rest(line, first, Plain, []);
            match mode
            case InDouble =>
              if IsHexEscape(line, i) then Rests(line, first, i + 4, mode, text + [HexByte(line, i)])
              else if c == SLASH && At(line, i + 1) != 0
              then Rests(line, first, i + 2, mode, text + [Unescape(At(line, i + 1))])
              else if c == QUOTE then t == if ClosesWell(line, i) then Token(text, i + 1) else Unbalanced
              else if c == 0 then t == Unbalanced
              else Rests(line, first, i + 1, mode, text + [c])
            case InSingle =>
              if c == SLASH && At(line, i + 1) == SINGLE then Rests(line, first, i + 2, mode, text + [SINGLE])
              else if c == SINGLE then t == if ClosesWell(line, i) then Token(text, i + 1) else Unbalanced
              else if c == 0 then t == Unbalanced
              else Rests(line, first, i + 1, mode, text + [c])
            case Plain =>
              if c == 0 then t == Token(text, i)
              else if c == 32 || c == 10 || c == 13 || c == 9 then t == Token(text, i + 1)
              else if c == QUOTE then Rests(line, first, i + 1, InDouble, text)
              else if c == SINGLE then Rests(line, first, i + 1, InSingle, text)
              else Rests(line, first, i + 1, mode, text + [c])
  {
  }

  // ------------------------------------------------------------- round trip

  /** From the start of an escape the parser reads its byte. */
  lemma ReadEscape(line: seq<byte>, i: nat, c: byte, text: seq<byte>)
    requires i + |Escape(c)| <= |line| && line[i..i + |Escape(c)|] == Escape(c)
    ensures Rest(line, i, InDouble, text) == Rest(line, i + |Escape(c)|, InDouble, text + [c])
  {
    var e := Escape(c);
    assert line[i] == line[i..i + |e|][0];
    EscapeShape(c);
    assert At(line, i) == e[0];
    if |e| > 1 {
      assert At(line, i + 1) == line[i..i + |e|][1];
      if |e| == 4 {
        assert At(line, i + 2) == line[i..i + |e|][2] && At(line, i + 3) == line[i..i + |e|][3];
      }
    }
    RestDouble(line, i, text);
  }

  /** What an escape looks like to the parser. */
  lemma EscapeShape(c: byte)
    ensures var e := Escape(c);
            || (|e| == 1 && e[0] == c && c != SLASH && c != QUOTE && c != 0)
            || (|e| == 2 && e[0] == SLASH && e[1] != 120 && e[1] != 0 && Unescape(e[1]) == c)
            || (|e| == 4 && e[0] == SLASH && e[1] == 120 && IsHexDigit(e[2]) && IsHexDigit(e[3])
                && HexValue(e[2]) * 16 + HexValue(e[3]) == c)
  {
  }

  lemma RestDouble(line: seq<byte>, i: nat, text: seq<byte>)
    ensures var c, t := At(line, i), Rest(line, i, InDouble, text);
            if IsHexEscape(line, i) then t == Rest(line, i + 4, InDouble, text + [HexByte(line, i)])
            else if c == SLASH && At(line, i + 1) != 0
            then t == Rest(line, i + 2, InDouble, text + [Unescape(At(line, i + 1))])
            else if c == QUOTE then t == if ClosesWell(line, i) then Token(text, i + 1) else Unbalanced
            else if c == 0 then t == Unbalanced
            else t == Rest(line, i + 1, InDouble, text + [c])
  {
  }

  /** The parser reads the inside of a quoted string and its closing quote. */
  lemma {:induction false} ReadEscaped(line: seq<byte>, i: nat, p: seq<byte>, text: seq<byte>)
    requires i + |Escaped(p)| < |line| && line[i..i + |Escaped(p)|] == Escaped(p)
    requires line[i + |Escaped(p)|] == QUOTE && ClosesWell(line, i + |Escaped(p)|)
    ensures Rest(line, i, InDouble, text) == Token(text + p, i + |Escaped(p)| + 1)
    decreases |p|
  {
    hide Escape, Rest;
    if p == [] {
      RestDouble(line, i, text);
      assert text + p == text;
    } else {
      var e, rest := Escape(p[0]), Escaped(p[1..]);
      var s := line[i..i + |Escaped(p)|];
      assert line[i..i + |e|] == s[..|e|] == e;
      assert line[i + |e|..i + |e| + |rest|] == s[|e|..] == rest;
      ReadEscape(line, i, p[0], text);
      ReadEscaped(line, i + |e|, p[1..], text + [p[0]]);
      assert text + [p[0]] + p[1..] == text + p;
    }
  }

  predicate Blank(gap: seq<byte>) {
    forall c :: c in gap ==> IsSpace(c)
  }

  lemma {:induction false} SkipGap(line: seq<byte>, i: nat, n: nat)
    requires i + n <= |line| && Blank(line[i..i + n])
    ensures SkipBlanks(line, i) == SkipBlanks(line, i + n)
    decreases n
  {
    if n > 0 {
      var s := line[i..i + n];
      assert s[0] in s && line[i] == s[0];
      SkipOne(line, i);
      assert line[i + 1..i + n] == s[1..];
      SkipGap(line, i + 1, n - 1);
    }
  }

  /** A quoted string at i, behind blanks that start at from, is the next token. */
  lemma ReadQuoted(line: seq<byte>, from: nat, i: nat, p: seq<byte>)
    requires from <= i <= |line| && Blank(line[from..i])
    requires i + |Quoted(p)| <= |line| && line[i..i + |Quoted(p)|] == Quoted(p)
    requires ClosesWell(line, i + |Quoted(p)| - 1)
    ensures Tokens(line, from) == match Tokens(line, i + |Quoted(p)|)
                                  case None => None
                                  case Some(more) => Some([p] + more)
  {
    hide Rest, Escaped, SkipBlanks, Tokens;
    var q, n := Quoted(p), |Escaped(p)|;
    SkipGap(line, from, i - from);
    assert line[i] == line[i..i + |q|][0] == QUOTE;
    SkipOne(line, i);
    assert q[1..1 + n] == Escaped(p);
    SliceSlice(line, i, i + |q|, 1, 1 + n);
    assert line[i + 1 + n] == line[i..i + |q|][1 + n] == QUOTE;
    RestOpens(line, i);
    ReadEscaped(line, i + 1, p, []);
    assert [] + p == p;
    TokensToken(line, from, p, i + |q|);
  }

  lemma SliceSlice(s: seq<byte>, a: nat, b: nat, c: nat, d: nat)
    requires a <= b <= |s| && c <= d <= b - a
    ensures s[a..b][c..d] == s[a + c..a + d]
  {
    var x, y := s[a..b][c..d], s[a + c..a + d];
    assert forall k :: 0 <= k < |x| ==> x[k] == y[k];
  }

  lemma RestOpens(line: seq<byte>, i: nat)
    requires At(line, i) == QUOTE
    ensures Rest(line, i, Plain, []) == Rest(line, i + 1, InDouble, [])
  {
  }

  function QuotedAll(items: seq<seq<byte>>): seq<seq<byte>> {
    seq(|items|, k requires 0 <= k < |items| => Quoted(items[k]))
  }

  /** Blanks, a quoted string, and then the end or a blank. */
  lemma ReadNext(before: seq<byte>, lead: seq<byte>, p: seq<byte>, after: seq<byte>)
    requires Blank(lead) && (after == [] || IsSpace(after[0]))
    ensures var line, k := before + lead + Quoted(p) + after, |before| + |lead| + |Quoted(p)|;
            Tokens(line, |before|) == match Tokens(line, k) case None => None case Some(more) => Some([p] + more)
  {
    hide Rest, SkipBlanks, Tokens, Escaped;
    var q := Quoted(p);
    var line := before + lead + q + after;
    var i := |before| + |lead|;
    assert line[|before|..i] == lead;
    assert line[i..i + |q|] == q;
    assert after != [] ==> line[i + |q|] == after[0];
    ReadQuoted(line, |before|, i, p);
  }

  lemma ReadEnd(before: seq<byte>, trail: seq<byte>)
    requires Blank(trail)
    ensures Tokens(before + trail, |before|) == Some([])
  {
    hide SkipBlanks, Tokens;
    var line := before + trail;
    assert line[|before|..|line|] == trail;
    SkipGap(line, |before|, |trail|);
    SkipOne(line, |line|);
    TokensEnd(line, |before|);
  }

  lemma TokensEnd(line: seq<byte>, i: nat)
    requires At(line, SkipBlanks(line, i)) == 0
    ensures Tokens(line, i) == Some([])
  {
  }

  /** Quoted strings with blanks between them, read from behind `before`. */
  lemma {:induction false} ReadAll(items: seq<seq<byte>>, gap: seq<byte>, before: seq<byte>, lead: seq<byte>,
                                   trail: seq<byte>)
    requires Blank(gap) && gap != [] && Blank(lead) && Blank(trail)
    ensures Tokens(before + lead + Join(QuotedAll(items), gap) + trail, |before|) == Some(items)
    decreases |items|
  {
    hide Quoted, Tokens, QuotedAll, Blank;
    var line := before + lead + Join(QuotedAll(items), gap) + trail;
    BlankHead(gap);
    BlankHead(trail);
    if items == [] {
      assert QuotedAll(items) == [] by { QuotedAllNone(); }
      BlankBoth(lead, trail);
      assert line == before + (lead + trail);
      ReadEnd(before, lead + trail);
    } else {
      var q, rest := Quoted(items[0]), items[1..];
      QuotedAllSplit(items);
      var first := before + lead + q;
      if |items| == 1 {
        assert line == before + lead + q + trail;
        ReadNext(before, lead, items[0], trail);
        ReadEnd(first, trail);
      } else {
        var after := gap + Join(QuotedAll(rest), gap) + trail;
        JoinMore(QuotedAll(items), gap);
        assert line == before + lead + q + after;
        ReadNext(before, lead, items[0], after);
        assert line == first + gap + Join(QuotedAll(rest), gap) + trail;
        ReadAll(rest, gap, first, gap, trail);
      }
      assert items == [items[0]] + rest;
    }
  }

  lemma JoinMore(items: seq<seq<byte>>, gap: seq<byte>)
    requires |items| > 1
    ensures Join(items, gap) == items[0] + gap + Join(items[1..], gap)
  {
  }

  lemma BlankHead(gap: seq<byte>)
    requires Blank(gap)
    ensures gap != [] ==> IsSpace(gap[0])
  {
    assert gap != [] ==> gap[0] in gap;
  }

  lemma BlankBoth(lead: seq<byte>, trail: seq<byte>)
    requires Blank(lead) && Blank(trail)
    ensures Blank(lead + trail)
  {
  }

  lemma QuotedAllNone()
    ensures QuotedAll([]) == []
  {
  }

  lemma QuotedAllSplit(items: seq<seq<byte>>)
    requires items != []
    ensures QuotedAll(items)[0] == Quoted(items[0]) && QuotedAll(items)[1..] == QuotedAll(items[1..])
    ensures |QuotedAll(items)| == |items|
  {
    hide Quoted;
  }

  /** Parsing the printed line gives back the list: any strings, any blanks between and around them. */
  lemma RoundTrip(items: seq<seq<byte>>, gap: seq<byte>, lead: seq<byte>, trail: seq<byte>)
    requires Blank(gap) && gap != [] && Blank(lead) && Blank(trail)
    ensures Tokens(lead + Join(QuotedAll(items), gap) + trail, 0) == Some(items)
  {
    hide Tokens;
    ReadAll(items, gap, [], lead, trail);
    assert [] + lead == lead;
  }
}
