/**
 The language of sdssplitargs: which lines it reads, with what tokens, and so
 which it refuses. Lines are written here from their parts, not parsed.
 */
module SdsGrammar {
  import opened Common
  import opened SdsSplit
  import opened SdsRepr

  // ---------------------------------------------------------------- grammar

  /** Between double quotes: a byte by its two digits, an escaped byte, or a byte as it is. */
  datatype Piece = Hex(hi: nat, lo: nat, upper0: bool, upper1: bool) | Slashed(c: byte) | Bare(c: byte)

  /** 0-9, then a-f or A-F. */
  function Digit(d: nat, upper: bool): byte
    requires d < 16
  {
    if d < 10 then 48 + d else if upper then 65 + (d - 10) else 97 + (d - 10)
  }

  /** n, r, t, b and a stand for control characters. */
  const NAMED: map<byte, byte> := map[110 := 10, 114 := 13, 116 := 9, 98 := 8, 97 := 7]

  predicate PieceOk(p: Piece) {
    match p
    case Hex(hi, lo, _, _) => hi < 16 && lo < 16
    case Slashed(c) => c != 0
    case Bare(c) => c != 0 && c != QUOTE && c != SLASH
  }

  function Written(p: Piece): (w: seq<byte>)
    requires PieceOk(p)
    ensures w != []
  {
    match p
    case Hex(hi, lo, upper0, upper1) => [SLASH, 120, Digit(hi, upper0), Digit(lo, upper1)]
    case Slashed(c) => [SLASH, c]
    case Bare(c) => [c]
  }

  function ByteOf(p: Piece): byte
    requires PieceOk(p)
  {
    match p
    case Hex(hi, lo, _, _) => hi * 16 + lo
    case Slashed(c) => if c in NAMED then NAMED[c] else c
    case Bare(c) => c
  }

  /** An escaped x is not followed by two digits, which would make it a byte by its digits. */
  predicate Proper(ps: seq<Piece>)
    decreases |ps|, 0
  {
    ps != [] ==>
      && PieceOk(ps[0]) && Proper(ps[1..])
      && (ps[0] == Slashed(120) ==> !TwoDigits(WrittenAll(ps[1..])))
  }

  predicate TwoDigits(s: seq<byte>) {
    |s| >= 2 && IsHexDigit(s[0]) && IsHexDigit(s[1])
  }

  function WrittenAll(ps: seq<Piece>): seq<byte>
    requires Proper(ps)
    decreases |ps|, 1
  {
    if ps == [] then [] else Written(ps[0]) + WrittenAll(ps[1..])
  }

  function BytesOf(ps: seq<Piece>): seq<byte>
    requires Proper(ps)
  {
    if ps == [] then [] else [ByteOf(ps[0])] + BytesOf(ps[1..])
  }

  /** Between single quotes every byte is as it is, but a single quote has a backslash. */
  function Single(x: seq<byte>): seq<byte> {
    if x == [] then [] else (if x[0] == SINGLE then [SLASH, SINGLE] else [x[0]]) + Single(x[1..])
  }

  predicate SingleOk(x: seq<byte>) {
    0 !in x && (x != [] ==> x[|x| - 1] != SLASH)
  }

  /** A token: bytes without quotes, and then a quoted part perhaps. */
  datatype Tail = Unquoted | InDoubles(ps: seq<Piece>) | InSingles(x: seq<byte>)

  datatype Word = Word(plain: seq<byte>, tail: Tail)

  /** A blank that ends a token without quotes. */
  predicate Ender(c: byte) {
    c == 32 || c == 10 || c == 13 || c == 9
  }

  predicate Free(c: byte) {
    c != 0 && c != QUOTE && c != SINGLE && !Ender(c)
  }

  predicate Bytes(x: seq<byte>) {
    forall c :: c in x ==> Free(c)
  }

  predicate PlainOk(x: seq<byte>) {
    Bytes(x) && (x != [] ==> !IsSpace(x[0]))
  }

  predicate TailOk(t: Tail) {
    match t
    case Unquoted => true
    case InDoubles(ps) => Proper(ps)
    case InSingles(x) => SingleOk(x)
  }

  predicate WordOk(w: Word) {
    PlainOk(w.plain) && TailOk(w.tail) && (w.tail.Unquoted? ==> w.plain != [])
  }

  function TailWritten(t: Tail): seq<byte>
    requires TailOk(t)
  {
    match t
    case Unquoted => []
    case InDoubles(ps) => [QUOTE] + WrittenAll(ps) + [QUOTE]
    case InSingles(x) => [SINGLE] + Single(x) + [SINGLE]
  }

  function WordWritten(w: Word): seq<byte>
    requires WordOk(w)
  {
    w.plain + TailWritten(w.tail)
  }

  function TailText(t: Tail): seq<byte>
    requires TailOk(t)
  {
    match t
    case Unquoted => []
    case InDoubles(ps) => BytesOf(ps)
    case InSingles(x) => x
  }

  function TextOf(w: Word): seq<byte>
    requires WordOk(w)
  {
    w.plain + TailText(w.tail)
  }

  datatype Item = Item(gap: seq<byte>, word: Word)

  /** What may stand behind a token: nothing, or a blank, and one that ends it if it has no quotes. */
  predicate Behind(w: Word, after: seq<byte>) {
    after == [] || if w.tail.Unquoted? then Ender(after[0]) else IsSpace(after[0])
  }

  predicate Good(items: seq<Item>, rest: seq<byte>)
    decreases |items|, 0
  {
    items != [] ==>
      && Blank(items[0].gap) && WordOk(items[0].word) && Good(items[1..], rest)
      && Behind(items[0].word, Line(items[1..], rest))
  }

  /** The tokens with the blanks before them, and the rest. */
  function Line(items: seq<Item>, rest: seq<byte>): seq<byte>
    requires Good(items, rest)
    decreases |items|, 1
  {
    if items == [] then rest else items[0].gap + WordWritten(items[0].word) + Line(items[1..], rest)
  }

  function Texts(items: seq<Item>, rest: seq<byte>): seq<seq<byte>>
    requires Good(items, rest)
  {
    if items == [] then [] else [TextOf(items[0].word)] + Texts(items[1..], rest)
  }

  /**
   What a line ends with: blanks, or one of three faults. A quoted token with
   something joined to it, or a quote that is not closed (perhaps with a last
   backslash between double quotes).
   */
  datatype End =
    | Blanks(gap: seq<byte>)
    | Joined(gap: seq<byte>, word: Word, after: seq<byte>)
    | OpenDouble(gap: seq<byte>, plain: seq<byte>, ps: seq<Piece>, cut: bool)
    | OpenSingle(gap: seq<byte>, plain: seq<byte>, x: seq<byte>)

  predicate EndOk(e: End) {
    && Blank(e.gap)
    && match e
       case Blanks(_) => true
       case Joined(_, w, after) =>
         WordOk(w) && !w.tail.Unquoted? && after != [] && after[0] != 0 && !IsSpace(after[0])
       case OpenDouble(_, plain, ps, _) => PlainOk(plain) && Proper(ps)
       case OpenSingle(_, plain, x) => PlainOk(plain) && 0 !in x
  }

  function EndWritten(e: End): seq<byte>
    requires EndOk(e)
  {
    e.gap + match e
            case Blanks(_) => []
            case Joined(_, w, after) => WordWritten(w) + after
            case OpenDouble(_, plain, ps, cut) => plain + [QUOTE] + WrittenAll(ps) + if cut then [SLASH] else []
            case OpenSingle(_, plain, x) => plain + [SINGLE] + Single(x)
  }

  /** The C string in the line, taken apart. */
  predicate Splits(line: seq<byte>, items: seq<Item>, e: End) {
    EndOk(e) && Good(items, EndWritten(e)) && Line(items, EndWritten(e)) == CString(line)
  }

  // --------------------------------------------------- what is written is read

  /** x stands at i. */
  predicate Stands(line: seq<byte>, i: nat, x: seq<byte>) {
    i + |x| <= |line| && line[i..i + |x|] == x
  }

  lemma StandsParts(line: seq<byte>, i: nat, x: seq<byte>, y: seq<byte>)
    ensures Stands(line, i, x + y) <==> Stands(line, i, x) && Stands(line, i + |x|, y)
  {
    var z := x + y;
    if Stands(line, i, z) {
      assert line[i..i + |x|] == line[i..i + |z|][..|x|] == x;
      assert line[i + |x|..i + |z|] == line[i..i + |z|][|x|..] == y;
    }
    if Stands(line, i, x) && Stands(line, i + |x|, y) {
      assert line[i..i + |z|] == line[i..i + |x|] + line[i + |x|..i + |x| + |y|];
    }
  }

  lemma StandsAt(line: seq<byte>, i: nat, x: seq<byte>, k: nat)
    requires Stands(line, i, x) && k < |x|
    ensures i + k < |line| && At(line, i + k) == line[i + k] == x[k]
  {
    assert line[i..i + |x|][k] == x[k];
  }

  lemma DigitValue(d: nat, upper: bool)
    requires d < 16
    ensures IsHexDigit(Digit(d, upper)) && HexValue(Digit(d, upper)) == d
  {
  }

  lemma ReadPiece(line: seq<byte>, i: nat, p: Piece, text: seq<byte>)
    requires PieceOk(p) && Stands(line, i, Written(p))
    requires p == Slashed(120) ==> !(IsHexDigit(At(line, i + 2)) && IsHexDigit(At(line, i + 3)))
    ensures Rest(line, i, InDouble, text) == Rest(line, i + |Written(p)|, InDouble, text + [ByteOf(p)])
  {
    hide Rest;
    var w := Written(p);
    StandsAt(line, i, w, 0);
    if |w| > 1 {
      StandsAt(line, i, w, 1);
    }
    if p.Hex? {
      StandsAt(line, i, w, 2);
      StandsAt(line, i, w, 3);
      DigitValue(p.hi, p.upper0);
      DigitValue(p.lo, p.upper1);
    }
    RestDouble(line, i, text);
  }

  lemma {:induction false} ReadPieces(line: seq<byte>, i: nat, ps: seq<Piece>, text: seq<byte>)
    requires Proper(ps) && Stands(line, i, WrittenAll(ps))
    requires !IsHexDigit(At(line, i + |WrittenAll(ps)|))
    ensures Rest(line, i, InDouble, text) == Rest(line, i + |WrittenAll(ps)|, InDouble, text + BytesOf(ps))
    decreases |ps|
  {
    hide Rest, Written, Stands, TwoDigits;
    if ps == [] {
      assert text + [] == text;
    } else {
      var w, rest := Written(ps[0]), WrittenAll(ps[1..]);
      StandsParts(line, i, w, rest);
      if ps[0] == Slashed(120) {
        WrittenX();
        NoDigits(line, i + 2, rest);
      }
      ReadPiece(line, i, ps[0], text);
      ReadPieces(line, i + |w|, ps[1..], text + [ByteOf(ps[0])]);
      assert text + [ByteOf(ps[0])] + BytesOf(ps[1..]) == text + BytesOf(ps);
    }
  }

  lemma WrittenX()
    ensures |Written(Slashed(120))| == 2
  {
  }

  lemma NoDigits(line: seq<byte>, i: nat, x: seq<byte>)
    requires !TwoDigits(x) && (Stands(line, i, x) ==> !IsHexDigit(At(line, i + |x|)))
    ensures Stands(line, i, x) ==> !(IsHexDigit(At(line, i)) && IsHexDigit(At(line, i + 1)))
  {
    if Stands(line, i, x) && |x| >= 1 {
      StandsAt(line, i, x, 0);
      if |x| >= 2 {
        StandsAt(line, i, x, 1);
      }
    }
  }

  lemma RestSingle(line: seq<byte>, i: nat, text: seq<byte>)
    ensures var c, t := At(line, i), Rest(line, i, InSingle, text);
            if c == SLASH && At(line, i + 1) == SINGLE then t == Rest(line, i + 2, InSingle, text + [SINGLE])
            else if c == SINGLE then t == if ClosesWell(line, i) then Token(text, i + 1) else Unbalanced
            else if c == 0 then t == Unbalanced
            else t == Rest(line, i + 1, InSingle, text + [c])
  {
  }

  lemma RestPlain(line: seq<byte>, i: nat, text: seq<byte>)
    ensures var c, t := At(line, i), Rest(line, i, Plain, text);
            if c == 0 then t == Token(text, i)
            else if Ender(c) then t == Token(text, i + 1)
            else if c == QUOTE then t == Rest(line, i + 1, InDouble, text)
            else if c == SINGLE then t == Rest(line, i + 1, InSingle, text)
            else t == Rest(line, i + 1, Plain, text + [c])
  {
  }

  lemma {:induction false} ReadSingle(line: seq<byte>, i: nat, x: seq<byte>, text: seq<byte>)
    requires 0 !in x && Stands(line, i, Single(x))
    requires x != [] && x[|x| - 1] == SLASH ==> At(line, i + |Single(x)|) != SINGLE
    ensures Rest(line, i, InSingle, text) == Rest(line, i + |Single(x)|, InSingle, text + x)
    decreases |x|
  {
    hide Rest, Stands;
    if x == [] {
      assert text + [] == text;
    } else {
      var w, rest := if x[0] == SINGLE then [SLASH, SINGLE] else [x[0]], Single(x[1..]);
      StandsParts(line, i, w, rest);
      StandsAt(line, i, w, 0);
      if x[0] == SINGLE {
        StandsAt(line, i, w, 1);
      } else if |x| > 1 {
        StandsAt(line, i + 1, rest, 0);
      }
      assert x[0] in x;
      RestSingle(line, i, text);
      ReadSingle(line, i + |w|, x[1..], text + [x[0]]);
      assert text + [x[0]] + x[1..] == text + x;
    }
  }

  lemma BytesRest(x: seq<byte>)
    requires Bytes(x) && x != []
    ensures Bytes(x[1..]) && Free(x[0])
  {
    assert x[0] in x;
    assert forall c :: c in x[1..] ==> c in x;
  }

  lemma {:induction false} ReadPlain(line: seq<byte>, i: nat, x: seq<byte>, text: seq<byte>)
    requires Bytes(x) && Stands(line, i, x)
    ensures Rest(line, i, Plain, text) == Rest(line, i + |x|, Plain, text + x)
    decreases |x|
  {
    hide Rest, Stands;
    if x == [] {
      assert text + [] == text;
    } else {
      BytesRest(x);
      assert x == [x[0]] + x[1..];
      StandsParts(line, i, [x[0]], x[1..]);
      StandsAt(line, i, [x[0]], 0);
      RestPlain(line, i, text);
      ReadPlain(line, i + 1, x[1..], text + [x[0]]);
      assert text + [x[0]] + x[1..] == text + x;
    }
  }

  /** A quoted part, behind text: it needs a blank or the end behind its closing quote. */
  lemma ReadTail(line: seq<byte>, i: nat, t: Tail, text: seq<byte>)
    requires TailOk(t) && !t.Unquoted? && Stands(line, i, TailWritten(t))
    ensures var k := i + |TailWritten(t)|;
            Rest(line, i, Plain, text) ==
            if At(line, k) == 0 || IsSpace(At(line, k)) then Token(text + TailText(t), k) else Unbalanced
  {
    hide Rest, Stands, Proper, WrittenAll, BytesOf, Single;
    var q := if t.InDoubles? then QUOTE else SINGLE;
    var inner := if t.InDoubles? then WrittenAll(t.ps) else Single(t.x);
    StandsParts(line, i, [q] + inner, [q]);
    StandsParts(line, i, [q], inner);
    StandsAt(line, i, [q], 0);
    StandsAt(line, i + 1 + |inner|, [q], 0);
    RestPlain(line, i, text);
    if t.InDoubles? {
      ReadPieces(line, i + 1, t.ps, text);
      RestDouble(line, i + 1 + |inner|, text + TailText(t));
    } else {
      ReadSingle(line, i + 1, t.x, text);
      RestSingle(line, i + 1 + |inner|, text + TailText(t));
    }
  }

  lemma UnquotedTail()
    ensures TailOk(Unquoted) && TailWritten(Unquoted) == [] && TailText(Unquoted) == []
  {
  }

  lemma ReadWord(line: seq<byte>, i: nat, w: Word)
    requires WordOk(w) && Stands(line, i, WordWritten(w))
    requires var c := At(line, i + |WordWritten(w)|);
             w.tail.Unquoted? ==> c == 0 || Ender(c)
    ensures var k := i + |WordWritten(w)|;
            Rest(line, i, Plain, []) ==
            if At(line, k) == 0 then Token(TextOf(w), k)
            else if w.tail.Unquoted? then Token(TextOf(w), k + 1)
            else if IsSpace(At(line, k)) then Token(TextOf(w), k)
            else Unbalanced
  {
    hide Rest, Stands, TailOk, TailWritten, TailText, Bytes, IsSpace;
    if w.tail.Unquoted? {
      UnquotedTail();
      assert w.plain + [] == w.plain;
    }
    StandsParts(line, i, w.plain, TailWritten(w.tail));
    ReadPlain(line, i, w.plain, []);
    var j := i + |w.plain|;
    assert [] + w.plain == w.plain;
    if w.tail.Unquoted? {
      RestPlain(line, j, w.plain);
    } else {
      ReadTail(line, j, w.tail, w.plain);
    }
  }

  /** A token starts with neither a blank nor the end of the line. */
  lemma WordStarts(plain: seq<byte>, q: byte, more: seq<byte>)
    requires PlainOk(plain) && (q == QUOTE || q == SINGLE)
    ensures var w := plain + [q] + more; w != [] && w[0] != 0 && !IsSpace(w[0])
    ensures plain != [] ==> plain[0] != 0 && !IsSpace(plain[0])
  {
    if plain != [] {
      BytesRest(plain);
    }
  }

  lemma WordBegins(w: Word)
    requires WordOk(w)
    ensures WordWritten(w) != [] && WordWritten(w)[0] != 0 && !IsSpace(WordWritten(w)[0])
  {
    hide Proper, WrittenAll, Single, SingleOk, PlainOk;
    var t := TailWritten(w.tail);
    WordStarts(w.plain, if w.tail.InSingles? then SINGLE else QUOTE, if t == [] then [] else t[1..]);
  }

  /** Blanks at i, and behind them something else. */
  lemma SkipTo(line: seq<byte>, i: nat, gap: seq<byte>)
    requires Blank(gap) && Stands(line, i, gap)
    requires var c := At(line, i + |gap|); c == 0 || !IsSpace(c)
    ensures SkipBlanks(line, i) == i + |gap|
  {
    hide SkipBlanks, IsSpace;
    SkipGap(line, i, |gap|);
    SkipOne(line, i + |gap|);
  }

  lemma TokensSkip(line: seq<byte>, i: nat, j: nat)
    requires SkipBlanks(line, i) == SkipBlanks(line, j)
    ensures Tokens(line, i) == Tokens(line, j)
  {
  }

  lemma TokensFault(line: seq<byte>, i: nat)
    requires At(line, SkipBlanks(line, i)) != 0 && Rest(line, SkipBlanks(line, i), Plain, []).Unbalanced?
    ensures Tokens(line, i) == None
  {
  }

  function Prefixed(xs: seq<seq<byte>>, more: Option<seq<seq<byte>>>): Option<seq<seq<byte>>> {
    match more
    case None => None
    case Some(ys) => Some(xs + ys)
  }

  lemma ReadItem(line: seq<byte>, i: nat, gap: seq<byte>, w: Word)
    requires Blank(gap) && WordOk(w) && Stands(line, i, gap + WordWritten(w))
    requires var c := At(line, i + |gap| + |WordWritten(w)|);
             c == 0 || if w.tail.Unquoted? then Ender(c) else IsSpace(c)
    ensures Tokens(line, i) == Prefixed([TextOf(w)], Tokens(line, i + |gap| + |WordWritten(w)|))
  {
    hide Rest, Stands, SkipBlanks, Tokens, WordOk, WordWritten, TextOf, Blank;
    var j, k := i + |gap|, i + |gap| + |WordWritten(w)|;
    StandsParts(line, i, gap, WordWritten(w));
    WordBegins(w);
    StandsAt(line, j, WordWritten(w), 0);
    SkipTo(line, i, gap);
    ReadWord(line, j, w);
    SkipOne(line, k);
    if At(line, k) != 0 && w.tail.Unquoted? {
      TokensSkip(line, k, k + 1);
      TokensToken(line, i, TextOf(w), k + 1);
    } else {
      TokensToken(line, i, TextOf(w), k);
    }
  }

  lemma LineNone(rest: seq<byte>)
    ensures Good([], rest) && Line([], rest) == rest && Texts([], rest) == []
  {
  }

  lemma LineHead(items: seq<Item>, rest: seq<byte>)
    requires Good(items, rest) && items != []
    ensures Blank(items[0].gap) && WordOk(items[0].word) && Good(items[1..], rest)
    ensures var more, w := Line(items[1..], rest), items[0].word;
            && Behind(w, more) && |rest| <= |more|
            && Line(items, rest) == items[0].gap + WordWritten(w) + more
            && Texts(items, rest) == [TextOf(w)] + Texts(items[1..], rest)
  {
    hide WordOk, WordWritten, TextOf, Blank, Behind;
    LineLength(items[1..], rest);
  }

  lemma {:induction false} ReadItems(line: seq<byte>, i: nat, items: seq<Item>, rest: seq<byte>)
    requires Good(items, rest) && Stands(line, i, Line(items, rest))
    requires rest == [] ==> At(line, i + |Line(items, rest)|) == 0
    ensures |rest| <= |Line(items, rest)|
    ensures var k := i + |Line(items, rest)| - |rest|;
            Tokens(line, i) == Prefixed(Texts(items, rest), Tokens(line, k)) && Stands(line, k, rest)
    decreases |items|
  {
    hide Stands, Tokens, Good, Line, Texts, WordOk, WordWritten, TextOf, Blank, IsSpace, Ender;
    if items == [] {
      LineNone(rest);
      if Tokens(line, i).Some? {
        assert [] + Tokens(line, i).value == Tokens(line, i).value;
      }
    } else {
      LineHead(items, rest);
      var gap, w, more := items[0].gap, items[0].word, Line(items[1..], rest);
      var j := i + |gap| + |WordWritten(w)|;
      StandsParts(line, i, gap + WordWritten(w), more);
      if more != [] {
        StandsAt(line, j, more, 0);
      }
      ReadItem(line, i, gap, w);
      ReadItems(line, j, items[1..], rest);
      var t := Tokens(line, j + |more| - |rest|);
      if t.Some? {
        assert [TextOf(w)] + (Texts(items[1..], rest) + t.value) == Texts(items, rest) + t.value;
      }
    }
  }

  lemma {:induction false} LineLength(items: seq<Item>, rest: seq<byte>)
    requires Good(items, rest)
    ensures |rest| <= |Line(items, rest)|
    decreases |items|
  {
    hide WordOk, WordWritten, Blank, Behind;
    if items != [] {
      LineLength(items[1..], rest);
    }
  }

  lemma ReadEndOf(line: seq<byte>, i: nat, e: End)
    requires EndOk(e) && Stands(line, i, EndWritten(e))
    requires e.Joined? || At(line, i + |EndWritten(e)|) == 0
    ensures Tokens(line, i) == if e.Blanks? then Some([]) else None
  {
    hide Rest, Stands, SkipBlanks, Tokens, WordOk, WordWritten, Blank, Proper, WrittenAll, Single, PlainOk, IsSpace;
    match e
    case Blanks(gap) =>
      assert gap + [] == gap;
      SkipTo(line, i, gap);
      TokensEnd(line, i);
    case Joined(gap, w, after) =>
      var j := i + |gap|;
      StandsParts(line, i, gap, WordWritten(w) + after);
      StandsParts(line, j, WordWritten(w), after);
      WordBegins(w);
      StandsAt(line, j, WordWritten(w), 0);
      StandsAt(line, j + |WordWritten(w)|, after, 0);
      SkipTo(line, i, gap);
      ReadWord(line, j, w);
      TokensFault(line, i);
    case OpenDouble(gap, plain, ps, cut) =>
      OpenDoubleFails(line, i, gap, plain, ps, if cut then [SLASH] else []);
    case OpenSingle(gap, plain, x) =>
      OpenSingleFails(line, i, gap, plain, x);
  }

  /** Blanks, bytes without quotes and a quote: the token goes on behind the quote. */
  lemma ReadOpening(line: seq<byte>, i: nat, gap: seq<byte>, plain: seq<byte>, q: byte, more: seq<byte>)
    requires Blank(gap) && PlainOk(plain) && (q == QUOTE || q == SINGLE)
    requires Stands(line, i, gap + (plain + [q] + more))
    ensures var j, k := i + |gap|, i + |gap| + |plain| + 1;
            && SkipBlanks(line, i) == j && At(line, j) != 0 && Stands(line, k, more)
            && Rest(line, j, Plain, []) == Rest(line, k, if q == QUOTE then InDouble else InSingle, plain)
  {
    hide Rest, Stands, SkipBlanks, Blank, Bytes;
    var j := i + |gap|;
    StandsParts(line, i, gap, plain + [q] + more);
    StandsParts(line, j, plain + [q], more);
    StandsParts(line, j, plain, [q]);
    WordStarts(plain, q, more);
    StandsAt(line, j, plain + [q] + more, 0);
    StandsAt(line, j + |plain|, [q], 0);
    SkipTo(line, i, gap);
    ReadPlain(line, j, plain, []);
    assert [] + plain == plain;
    RestPlain(line, j + |plain|, plain);
  }

  lemma OpenDoubleFails(line: seq<byte>, i: nat, gap: seq<byte>, plain: seq<byte>, ps: seq<Piece>, z: seq<byte>)
    requires Blank(gap) && PlainOk(plain) && Proper(ps) && (z == [] || z == [SLASH])
    requires var w := gap + (plain + [QUOTE] + WrittenAll(ps) + z); Stands(line, i, w) && At(line, i + |w|) == 0
    ensures Tokens(line, i) == None
  {
    hide Rest, Stands, SkipBlanks, Tokens, Blank, PlainOk, Proper, WrittenAll;
    var inner := WrittenAll(ps);
    var k := i + |gap| + |plain| + 1;
    assert plain + [QUOTE] + inner + z == plain + [QUOTE] + (inner + z);
    ReadOpening(line, i, gap, plain, QUOTE, inner + z);
    StandsParts(line, k, inner, z);
    if z != [] {
      StandsAt(line, k + |inner|, z, 0);
    }
    ReadPieces(line, k, ps, plain);
    RestDouble(line, k + |inner|, plain + BytesOf(ps));
    if z != [] {
      RestDouble(line, k + |inner| + 1, plain + BytesOf(ps) + [SLASH]);
    }
    TokensFault(line, i);
  }

  lemma OpenSingleFails(line: seq<byte>, i: nat, gap: seq<byte>, plain: seq<byte>, x: seq<byte>)
    requires Blank(gap) && PlainOk(plain) && 0 !in x
    requires var w := gap + (plain + [SINGLE] + Single(x)); Stands(line, i, w) && At(line, i + |w|) == 0
    ensures Tokens(line, i) == None
  {
    hide Rest, Stands, SkipBlanks, Tokens, Blank, PlainOk, Single;
    var k := i + |gap| + |plain| + 1;
    ReadOpening(line, i, gap, plain, SINGLE, Single(x));
    ReadSingle(line, k, x, plain);
    RestSingle(line, k + |Single(x)|, plain + x);
    TokensFault(line, i);
  }

  // ---------------------------------------------------- every line is written

  /** Up to the quote that closes, or to the end. */
  lemma {:induction false} CutDouble(s: seq<byte>) returns (ps: seq<Piece>, z: seq<byte>)
    requires 0 !in s
    ensures Proper(ps) && s == WrittenAll(ps) + z
    ensures z == [] || z == [SLASH] || z[0] == QUOTE
    decreases |s|
  {
    hide Written, PieceOk, TwoDigits;
    if s == [] || s == [SLASH] || s[0] == QUOTE {
      return [], s;
    }
    var p := FirstPiece(s);
    var n := |Written(p)|;
    assert forall c :: c in s[n..] ==> c in s;
    ps, z := CutDouble(s[n..]);
    if p == Slashed(120) {
      WrittenX();
      DigitsHead(WrittenAll(ps), z);
    }
    var all := [p] + ps;
    assert all[1..] == ps;
    ps := all;
    assert s == s[..n] + s[n..];
  }

  lemma DigitsHead(x: seq<byte>, z: seq<byte>)
    requires !TwoDigits(x + z)
    ensures !TwoDigits(x)
  {
  }

  lemma FirstPiece(s: seq<byte>) returns (p: Piece)
    requires s != [] && 0 !in s && s != [SLASH] && s[0] != QUOTE
    ensures PieceOk(p) && |Written(p)| <= |s| && Written(p) == s[..|Written(p)|]
    ensures p == Slashed(120) ==> !TwoDigits(s[2..])
  {
    assert s[0] in s;
    if s[0] != SLASH {
      return Bare(s[0]);
    }
    assert s[1] in s;
    if s[1] == 120 && TwoDigits(s[2..]) {
      var hi, lo := s[2], s[3];
      DigitBack(hi);
      DigitBack(lo);
      return Hex(HexValue(hi), HexValue(lo), hi < 97, lo < 97);
    }
    return Slashed(s[1]);
  }

  lemma DigitBack(c: byte)
    requires IsHexDigit(c)
    ensures Digit(HexValue(c), c < 97) == c
  {
  }

  lemma {:induction false} CutSingle(s: seq<byte>) returns (x: seq<byte>, z: seq<byte>)
    requires 0 !in s
    ensures 0 !in x && s == Single(x) + z
    ensures z == [] || (z[0] == SINGLE && SingleOk(x))
    decreases |s|
  {
    hide Single;
    if s == [] || s[0] == SINGLE {
      SingleMore(1, []);
      return [], s;
    }
    assert s[0] in s;
    var n := if |s| > 1 && s[0] == SLASH && s[1] == SINGLE then 2 else 1;
    assert forall c :: c in s[n..] ==> c in s;
    x, z := CutSingle(s[n..]);
    var c := if n == 2 then SINGLE else s[0];
    SingleMore(c, x);
    assert x == [] && z != [] ==> s[n] == SINGLE;
    x := [c] + x;
    assert s == s[..n] + s[n..];
  }

  lemma SingleMore(c: byte, x: seq<byte>)
    ensures Single([c] + x) == (if c == SINGLE then [SLASH, SINGLE] else [c]) + Single(x)
    ensures c != 0 && SingleOk(x) && (x == [] ==> c != SLASH) ==> SingleOk([c] + x)
    ensures Single([]) == []
  {
    assert ([c] + x)[1..] == x;
  }

  lemma {:induction false} CutPlain(s: seq<byte>) returns (x: seq<byte>, z: seq<byte>)
    requires 0 !in s
    ensures Bytes(x) && s == x + z
    ensures z == [] || Ender(z[0]) || z[0] == QUOTE || z[0] == SINGLE
    decreases |s|
  {
    if s == [] || Ender(s[0]) || s[0] == QUOTE || s[0] == SINGLE {
      return [], s;
    }
    assert s[0] in s && forall c :: c in s[1..] ==> c in s;
    x, z := CutPlain(s[1..]);
    x := [s[0]] + x;
  }

  lemma {:induction false} CutBlank(s: seq<byte>) returns (gap: seq<byte>, z: seq<byte>)
    ensures Blank(gap) && s == gap + z
    ensures z == [] || !IsSpace(z[0])
    decreases |s|
  {
    if s == [] || !IsSpace(s[0]) {
      return [], s;
    }
    gap, z := CutBlank(s[1..]);
    gap := [s[0]] + gap;
  }

  lemma Parts(x: seq<byte>, y: seq<byte>)
    requires 0 !in x + y
    ensures 0 !in x && 0 !in y
  {
    assert forall c :: c in x ==> c in x + y;
    assert forall c :: c in y ==> c in x + y;
  }

  /** A quoted part to its closing quote, or one that is not closed. */
  lemma CutQuoted(s: seq<byte>) returns (t: Tail, z: seq<byte>, closed: bool)
    requires s != [] && (s[0] == QUOTE || s[0] == SINGLE) && 0 !in s
    ensures closed ==> TailOk(t) && !t.Unquoted? && s == TailWritten(t) + z
    ensures !closed ==>
      match t
      case Unquoted => false
      case InDoubles(ps) => Proper(ps) && (z == [] || z == [SLASH]) && s == [QUOTE] + WrittenAll(ps) + z
      case InSingles(x) => 0 !in x && s == [SINGLE] + Single(x)
  {
    hide Proper, WrittenAll, Single, SingleOk;
    Parts([s[0]], s[1..]);
    if s[0] == QUOTE {
      var ps, y := CutDouble(s[1..]);
      t, z, closed := InDoubles(ps), y, y != [] && y[0] == QUOTE;
      if closed {
        z := y[1..];
      }
    } else {
      var x, y := CutSingle(s[1..]);
      t, z, closed := InSingles(x), y, y != [];
      if closed {
        z := y[1..];
      }
    }
  }

  /** The next token of a line with what stands behind it, or the end of the line. */
  lemma CutToken(s: seq<byte>) returns (item: Option<Item>, e: End, after: seq<byte>)
    requires 0 !in s
    ensures item.None? ==> EndOk(e) && s == EndWritten(e)
    ensures item.Some? ==>
      && Blank(item.value.gap) && WordOk(item.value.word) && Behind(item.value.word, after)
      && s == item.value.gap + WordWritten(item.value.word) + after
  {
    hide Proper, WrittenAll, Single, SingleOk, TailOk, TailWritten, Bytes, Blank, IsSpace, Ender;
    item, after := None, [];
    var gap, y := CutBlank(s);
    Parts(gap, y);
    e := Blanks(gap);
    if y == [] {
      return;
    }
    var plain, z := CutPlain(y);
    Parts(plain, z);
    assert plain != [] ==> plain[0] == y[0];
    if z == [] || (z[0] != QUOTE && z[0] != SINGLE) {
      EnderBlank(y[0]);
      UnquotedTail();
      return Some(Item(gap, Word(plain, Unquoted))), e, z;
    }
    var t, more, closed := CutQuoted(z);
    if !closed {
      assert s == gap + (plain + z);
      match t {
        case Unquoted => assert false;
        case InDoubles(ps) => e := OpenDouble(gap, plain, ps, more != []);
        case InSingles(x) => e := OpenSingle(gap, plain, x);
      }
      return;
    }
    var w := Word(plain, t);
    Parts(TailWritten(t), more);
    assert WordWritten(w) + more == y;
    if more == [] || IsSpace(more[0]) {
      return Some(Item(gap, w)), e, more;
    }
    assert more[0] in more;
    e := Joined(gap, w, more);
  }

  lemma EnderBlank(c: byte)
    ensures Ender(c) ==> IsSpace(c)
  {
  }

  lemma {:induction false} CutLine(s: seq<byte>) returns (items: seq<Item>, e: End)
    requires 0 !in s
    ensures EndOk(e) && Good(items, EndWritten(e)) && Line(items, EndWritten(e)) == s
    decreases |s|
  {
    hide WordOk, WordWritten, EndOk, EndWritten, Blank, Behind;
    var item, end, after := CutToken(s);
    if item.None? {
      return [], end;
    }
    Parts(item.value.gap + WordWritten(item.value.word), after);
    WordBegins(item.value.word);
    items, e := CutLine(after);
    var all := [item.value] + items;
    assert all[1..] == items;
    items := all;
  }

  // ------------------------------------------------------------- main results

  lemma {:induction false} CStringStands(line: seq<byte>)
    ensures Stands(line, 0, CString(line)) && At(line, |CString(line)|) == 0
    decreases |line|
  {
    if line != [] && line[0] != 0 {
      CStringStands(line[1..]);
      var c := CString(line[1..]);
      assert line[..1 + |c|] == [line[0]] + line[1..][..|c|];
    }
  }

  lemma StandsRead(line: seq<byte>, items: seq<Item>, e: End)
    requires EndOk(e) && Good(items, EndWritten(e)) && Stands(line, 0, Line(items, EndWritten(e)))
    requires e.Joined? || At(line, |Line(items, EndWritten(e))|) == 0
    ensures Tokens(line, 0) == if e.Blanks? then Some(Texts(items, EndWritten(e))) else None
  {
    hide Tokens, Stands, Good, Line, Texts, WordOk, WordWritten, Proper, WrittenAll, Single, Bytes, Blank;
    var rest := EndWritten(e);
    ReadItems(line, 0, items, rest);
    ReadEndOf(line, |Line(items, rest)| - |rest|, e);
    assert Texts(items, rest) + [] == Texts(items, rest);
  }

  /**
   Tokens written with blanks between them are read to the end of the line. A
   closed quote with anything joined to it, or a quote that is not closed,
   refuses the whole line.
   */
  lemma LineRead(items: seq<Item>, e: End)
    requires EndOk(e) && Good(items, EndWritten(e))
    ensures Tokens(Line(items, EndWritten(e)), 0) == if e.Blanks? then Some(Texts(items, EndWritten(e))) else None
  {
    hide Tokens, EndOk, EndWritten, Good, Line, Texts;
    var line := Line(items, EndWritten(e));
    assert line[0..|line|] == line;
    StandsRead(line, items, e);
  }

  lemma SplitsRead(line: seq<byte>, items: seq<Item>, e: End)
    requires Splits(line, items, e)
    ensures Tokens(line, 0) == if e.Blanks? then Some(Texts(items, EndWritten(e))) else None
  {
    hide Tokens, Stands, EndOk, EndWritten, Good, Line, Texts, CString;
    CStringStands(line);
    StandsRead(line, items, e);
  }

  /**
   A line gives these tokens exactly if it is tokens of the grammar with these
   texts and blanks behind them, up to its first NUL.
   */
  lemma ReadsIff(line: seq<byte>, tokens: seq<seq<byte>>)
    ensures Tokens(line, 0) == Some(tokens) <==>
            exists items, e :: Splits(line, items, e) && e.Blanks? && Texts(items, EndWritten(e)) == tokens
  {
    hide Tokens, EndOk, EndWritten, Good, Line, Texts, CString;
    var items, e := CutLine(CString(line));
    assert Splits(line, items, e);
    SplitsRead(line, items, e);
    forall items, e | Splits(line, items, e)
      ensures Tokens(line, 0) == if e.Blanks? then Some(Texts(items, EndWritten(e))) else None
    {
      SplitsRead(line, items, e);
    }
  }

  /** NULL exactly for a closed quote with something joined to it, or a quote that is not closed. */
  lemma RefusedIff(line: seq<byte>)
    ensures Tokens(line, 0) == None <==> exists items, e :: Splits(line, items, e) && !e.Blanks?
  {
    hide Tokens, EndOk, EndWritten, Good, Line, Texts, CString;
    var items, e := CutLine(CString(line));
    assert Splits(line, items, e);
    forall items, e | Splits(line, items, e)
      ensures Tokens(line, 0) == None <==> !e.Blanks?
    {
      SplitsRead(line, items, e);
    }
  }

  // ------------------------------------------------------------ the printer

  /** What the printer writes for a byte. */
  function PieceFor(c: byte): (p: Piece)
    ensures PieceOk(p) && p != Slashed(120) && Written(p) == Escape(c) && ByteOf(p) == c
  {
    if c == SLASH || c == QUOTE then Slashed(c)
    else if c == 10 then Slashed(110)
    else if c == 13 then Slashed(114)
    else if c == 9 then Slashed(116)
    else if c == 7 then Slashed(97)
    else if c == 8 then Slashed(98)
    else if IsPrint(c) then Bare(c)
    else Hex(c / 16, c % 16, false, false)
  }

  lemma {:induction false} PiecesFor(p: seq<byte>) returns (ps: seq<Piece>)
    ensures Proper(ps) && WrittenAll(ps) == Escaped(p) && BytesOf(ps) == p
    decreases |p|
  {
    hide Written, Escape, ByteOf, TwoDigits;
    if p == [] {
      return [];
    }
    var rest := PiecesFor(p[1..]);
    ps := [PieceFor(p[0])] + rest;
    assert ps[1..] == rest;
  }

  /** A printed string is one of the quoted tokens. */
  lemma PrintedWord(p: seq<byte>) returns (w: Word)
    ensures WordOk(w) && w.plain == [] && w.tail.InDoubles?
    ensures WordWritten(w) == Quoted(p) && TextOf(w) == p
  {
    hide Escaped, Proper, WrittenAll, BytesOf;
    var ps := PiecesFor(p);
    w := Word([], InDoubles(ps));
  }

  /** So a printed string with anything joined to it refuses the line, whatever tokens stand before it. */
  lemma PrintedJoined(items: seq<Item>, gap: seq<byte>, p: seq<byte>, t: seq<byte>)
    requires Blank(gap) && t != [] && t[0] != 0 && !IsSpace(t[0])
    requires Good(items, gap + (Quoted(p) + t))
    ensures Tokens(Line(items, gap + (Quoted(p) + t)), 0) == None
  {
    hide Tokens, Quoted, Good, Line, WordOk, WordWritten, Blank, IsSpace;
    var w := PrintedWord(p);
    LineRead(items, Joined(gap, w, t));
  }

  /** `"f"b` is refused, as its comment says of `"foo"bar`. */
  lemma JoinedExample()
    ensures Tokens([QUOTE, 102, QUOTE, 98], 0) == None
  {
    hide Tokens;
    var line := [QUOTE, 102, QUOTE, 98];
    assert Escaped([102]) == [102] + Escaped([]);
    assert Quoted([102]) == [QUOTE, 102, QUOTE];
    assert [] + (Quoted([102]) + [98]) == line;
    PrintedJoined([], [], [102], [98]);
  }
}
