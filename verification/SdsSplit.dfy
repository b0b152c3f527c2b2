/**
 sds.c: sdssplitlen with its growing token array, and what sdsjoin builds.
 */
module SdsSplit {
  import opened Common

  // ------------------------------------------------------------ occurrences

  predicate Occurs(s: seq<byte>, sep: seq<byte>, k: nat) {
    k + |sep| <= |s| && s[k..k + |sep|] == sep
  }

  /** The first place from j on where sep occurs, |s| if there is none. */
  function First(s: seq<byte>, sep: seq<byte>, j: nat): (k: nat)
    requires j <= |s|
    ensures j <= k <= |s|
    ensures k < |s| ==> Occurs(s, sep, k)
    decreases |s| - j
  {
    if j == |s| || |s| < j + |sep| then |s|
    else if Occurs(s, sep, j) then j
    else First(s, sep, j + 1)
  }

  lemma {:induction false} FirstIsFirst(s: seq<byte>, sep: seq<byte>, j: nat, k: nat)
    requires sep != [] && j <= |s| && j <= k < First(s, sep, j)
    ensures !Occurs(s, sep, k)
    decreases |s| - j
  {
    if j < k {
      FirstIsFirst(s, sep, j + 1, k);
    }
  }

  lemma {:induction false} FirstFound(s: seq<byte>, sep: seq<byte>, j: nat, k: nat)
    requires sep != [] && j <= k && Occurs(s, sep, k)
    requires forall i :: j <= i < k ==> !Occurs(s, sep, i)
    ensures First(s, sep, j) == k
    decreases k - j
  {
    if j < k {
      FirstFound(s, sep, j + 1, k);
    }
  }

  // ------------------------------------------------------------ split, join

  /** Cut at the leftmost separator, then go on behind it. */
  function Pieces(s: seq<byte>, sep: seq<byte>): (r: seq<seq<byte>>)
    requires sep != []
    ensures r != []
    decreases |s|
  {
    var k := First(s, sep, 0);
    if k == |s| then [s] else [s[..k]] + Pieces(s[k + |sep|..], sep)
  }

  /** What sdssplitlen returns: NULL without a separator, no token for an empty string. */
  function Split(s: seq<byte>, sep: seq<byte>): Option<seq<seq<byte>>> {
    if sep == [] then None else if s == [] then Some([]) else Some(Pieces(s, sep))
  }

  function Join(items: seq<seq<byte>>, sep: seq<byte>): seq<byte> {
    if items == [] then []
    else if |items| == 1 then items[0]
    else items[0] + sep + Join(items[1..], sep)
  }

  /** A C string ends at its first NUL. */
  function CString(x: seq<byte>): (r: seq<byte>)
    ensures |r| <= |x| && 0 !in r
    ensures r == x <==> 0 !in x
    ensures |r| == |x| ==> r == x
  {
    if x == [] || x[0] == 0 then [] else [x[0]] + CString(x[1..])
  }

  /** What sdsjoin builds from C strings. */
  function JoinStrings(items: seq<seq<byte>>, sep: seq<byte>): seq<byte> {
    Join(seq(|items|, i requires 0 <= i < |items| => CString(items[i])), CString(sep))
  }

  // ------------------------------------------------------------ sdssplitlen

  /** sdssplitlen. The array is grown before each search so that two slots are left. */
  method SplitLen(s: seq<byte>, sep: seq<byte>) returns (r: Option<seq<seq<byte>>>)
    ensures r == Split(s, sep)
  {
    hide Pieces, First, Progress;
    if |sep| < 1 {
      return None;
    }
    var tokens := new seq<byte>[5];
    if |s| == 0 {
      return Some([]);
    }
    var elements, start, j := 0, 0, 0;
    ProgressStart(s, sep);
    while j < |s| - (|sep| - 1)
      invariant 0 <= start <= j <= |s| && start <= |s|
      invariant elements + 1 <= tokens.Length && fresh(tokens)
      invariant Progress(s, sep, tokens[..elements], start, j)
    {
      if tokens.Length < elements + 2 {
        tokens := Grow(tokens, elements);
      }
      ghost var before := tokens[..elements];
      ProgressTurn(s, sep, before, start, j);
      if (|sep| == 1 && s[j] == sep[0]) || s[j..j + |sep|] == sep {
        assert Occurs(s, sep, j);
        tokens[elements] := s[start..j];
        elements := elements + 1;
        assert tokens[..elements] == before + [s[start..j]];
        start := j + |sep|;
        j := j + |sep| - 1;
      }
      j := j + 1;
    }
    ghost var before := tokens[..elements];
    ProgressEnd(s, sep, before, start, j);
    tokens[elements] := s[start..];
    elements := elements + 1;
    assert tokens[..elements] == before + [s[start..]];
    r := Some(tokens[..elements]);
  }

  /** The tokens so far are cut off before start; no separator begins between start and j. */
  ghost predicate Progress(s: seq<byte>, sep: seq<byte>, done: seq<seq<byte>>, start: nat, j: nat)
    requires sep != [] && start <= j <= |s|
  {
    && done + Pieces(s[start..], sep) == Pieces(s, sep)
    && First(s[start..], sep, 0) == First(s[start..], sep, j - start)
  }

  lemma ProgressStart(s: seq<byte>, sep: seq<byte>)
    requires sep != []
    ensures Progress(s, sep, [], 0, 0)
  {
    assert s[0..] == s;
  }

  lemma ProgressTurn(s: seq<byte>, sep: seq<byte>, done: seq<seq<byte>>, start: nat, j: nat)
    requires sep != [] && start <= j && j + |sep| <= |s| && Progress(s, sep, done, start, j)
    ensures Occurs(s, sep, j) ==> Progress(s, sep, done + [s[start..j]], j + |sep|, j + |sep|)
    ensures !Occurs(s, sep, j) ==> Progress(s, sep, done, start, j + 1)
  {
    hide Pieces, First;
    var t := s[start..];
    FirstStep(t, sep, j - start);
    assert t[j - start..j - start + |sep|] == s[j..j + |sep|];
    if Occurs(s, sep, j) {
      PiecesCut(t, sep);
      assert t[..j - start] == s[start..j] && t[j - start + |sep|..] == s[j + |sep|..];
    }
  }

  lemma ProgressEnd(s: seq<byte>, sep: seq<byte>, done: seq<seq<byte>>, start: nat, j: nat)
    requires sep != [] && start <= j <= |s| < j + |sep| && Progress(s, sep, done, start, j)
    ensures done + [s[start..]] == Pieces(s, sep)
  {
    hide Pieces, First;
    FirstStep(s[start..], sep, j - start);
    PiecesCut(s[start..], sep);
  }

  /** zrealloc to twice the slots. */
  method Grow(tokens: array<seq<byte>>, elements: nat) returns (bigger: array<seq<byte>>)
    requires elements <= tokens.Length
    ensures fresh(bigger) && bigger.Length == 2 * tokens.Length && bigger[..elements] == tokens[..elements]
  {
    bigger := new seq<byte>[2 * tokens.Length];
    forall i | 0 <= i < elements {
      bigger[i] := tokens[i];
    }
  }

  lemma FirstStep(s: seq<byte>, sep: seq<byte>, j: nat)
    requires sep != [] && j <= |s|
    ensures |s| < j + |sep| ==> First(s, sep, j) == |s|
    ensures j + |sep| <= |s| ==> First(s, sep, j) == if Occurs(s, sep, j) then j else First(s, sep, j + 1)
  {
  }

  lemma PiecesCut(s: seq<byte>, sep: seq<byte>)
    requires sep != []
    ensures var k := First(s, sep, 0);
            Pieces(s, sep) == if k == |s| then [s] else [s[..k]] + Pieces(s[k + |sep|..], sep)
  {
  }

  // ------------------------------------------- joining undoes splitting

  lemma {:induction false} JoinPieces(s: seq<byte>, sep: seq<byte>)
    requires sep != []
    ensures Join(Pieces(s, sep), sep) == s
    decreases |s|
  {
    var k := First(s, sep, 0);
    if k < |s| {
      var rest := s[k + |sep|..];
      JoinPieces(rest, sep);
      assert Pieces(s, sep)[1..] == Pieces(rest, sep);
      assert s == s[..k] + s[k..k + |sep|] + rest;
    }
  }

  /** No token has the separator in it. */
  lemma {:induction false} NoTokenHasSeparator(s: seq<byte>, sep: seq<byte>, i: nat, k: nat)
    requires sep != [] && i < |Pieces(s, sep)|
    ensures !Occurs(Pieces(s, sep)[i], sep, k)
    decreases |s|
  {
    var n := First(s, sep, 0);
    var t := Pieces(s, sep)[i];
    if i > 0 {
      NoTokenHasSeparator(s[n + |sep|..], sep, i - 1, k);
    } else if k + |sep| <= |t| {
      FirstIsFirst(s, sep, 0, k);
      assert t[k..k + |sep|] == s[k..k + |sep|];
    }
  }

  /** Text before a NUL is cut off when the pieces are C strings. */
  lemma {:induction false} JoinStringsLength(items: seq<seq<byte>>, sep: seq<byte>)
    ensures |JoinStrings(items, sep)| <= |Join(items, sep)|
    ensures |JoinStrings(items, sep)| == |Join(items, sep)| <==> 0 !in Join(items, sep)
    ensures 0 !in Join(items, sep) ==> JoinStrings(items, sep) == Join(items, sep)
  {
    hide CString;
    var c := seq(|items|, i requires 0 <= i < |items| => CString(items[i]));
    if |items| > 1 {
      var d := seq(|items| - 1, i requires 0 <= i < |items| - 1 => CString(items[1..][i]));
      assert c[1..] == d;
      JoinStringsLength(items[1..], sep);
    }
  }

  /** sdsjoin gives back what sdssplitlen took apart exactly when that has no NUL. */
  lemma JoinInvertsSplitIff(s: seq<byte>, sep: seq<byte>)
    requires sep != []
    ensures JoinStrings(Split(s, sep).value, sep) == s <==> 0 !in s
  {
    if s != [] {
      JoinPieces(s, sep);
    }
    JoinStringsLength(Split(s, sep).value, sep);
  }

  /** One token with a NUL in it: the join stops there. */
  lemma JoinStopsAtNul()
    ensures var s: seq<byte>, sep := [97, 0, 98], [44];
            Split(s, sep) == Some([s]) && JoinStrings([s], sep) == [97]
  {
    var s: seq<byte>, sep := [97, 0, 98], [44];
    hide JoinStrings;
    NoneFirst(s, sep);
    JoinOne(s, sep);
    assert CString(s) == [97] + CString([0, 98]) by {
      assert s[1..] == [0, 98];
    }
  }

  lemma NoneFirst(s: seq<byte>, sep: seq<byte>)
    requires sep != [] && forall k :: 0 <= k < |s| ==> s[k] != sep[0]
    ensures Pieces(s, sep) == [s]
  {
    OccursHead(s, sep, First(s, sep, 0));
  }

  lemma OccursHead(s: seq<byte>, sep: seq<byte>, k: nat)
    requires sep != []
    ensures Occurs(s, sep, k) ==> k < |s| && s[k] == sep[0]
  {
    assert Occurs(s, sep, k) ==> s[k..k + |sep|][0] == s[k];
  }

  lemma JoinOne(x: seq<byte>, sep: seq<byte>)
    ensures JoinStrings([x], sep) == CString(x)
  {
  }

  // ------------------------------------------- splitting undoes joining

  /** Each item but the last ends where the first separator of `item + sep` begins; the last has none. */
  predicate Separable(items: seq<seq<byte>>, sep: seq<byte>)
    requires sep != []
  {
    && items != []
    && if |items| == 1 then First(items[0], sep, 0) == |items[0]|
       else First(items[0] + sep, sep, 0) == |items[0]| && Separable(items[1..], sep)
  }

  /** What follows the first separator does not matter for where it is. */
  lemma FirstLocal(x: seq<byte>, sep: seq<byte>, rest: seq<byte>)
    requires sep != []
    ensures First(x + sep + rest, sep, 0) == First(x + sep, sep, 0) <= |x|
  {
    var s, t := x + sep, x + sep + rest;
    assert s[|x|..|x| + |sep|] == sep;
    if First(s, sep, 0) > |x| {
      FirstIsFirst(s, sep, 0, |x|);
    }
    var k := First(s, sep, 0);
    forall i: nat | i <= k
      ensures Occurs(t, sep, i) == Occurs(s, sep, i)
    {
      assert t[i..i + |sep|] == s[i..i + |sep|];
    }
    forall i | 0 <= i < k
      ensures !Occurs(t, sep, i)
    {
      FirstIsFirst(s, sep, 0, i);
    }
    FirstFound(t, sep, 0, k);
  }

  lemma {:induction false} PiecesJoinIff(items: seq<seq<byte>>, sep: seq<byte>)
    requires sep != [] && items != []
    ensures Pieces(Join(items, sep), sep) == items <==> Separable(items, sep)
  {
    hide First, Pieces;
    if |items| > 1 {
      var x, rest := items[0], Join(items[1..], sep);
      PiecesJoinIff(items[1..], sep);
      PiecesHead(x, sep, rest);
      SameTail(x, Pieces(rest, sep), items);
    } else {
      PiecesOne(items[0], sep);
      assert items == [items[0]];
    }
  }

  lemma SameTail(x: seq<byte>, ps: seq<seq<byte>>, items: seq<seq<byte>>)
    requires items != [] && items[0] == x
    ensures [x] + ps == items <==> ps == items[1..]
  {
    assert items == [x] + items[1..] && ps == ([x] + ps)[1..];
  }

  lemma PiecesOne(x: seq<byte>, sep: seq<byte>)
    requires sep != []
    ensures Pieces(x, sep) == [x] <==> First(x, sep, 0) == |x|
  {
    hide First;
    assert First(x, sep, 0) < |x| ==> |Pieces(x, sep)[0]| < |x|;
  }

  /** The first token is x exactly when no separator begins before the one behind it. */
  lemma PiecesHead(x: seq<byte>, sep: seq<byte>, rest: seq<byte>)
    requires sep != []
    ensures var k, ps := First(x + sep, sep, 0), Pieces(x + sep + rest, sep);
            if k == |x| then ps == [x] + Pieces(rest, sep) else |ps[0]| < |x|
  {
    hide First;
    var s := x + sep + rest;
    FirstLocal(x, sep, rest);
    var k := First(s, sep, 0);
    if k == |x| {
      assert s[..k] == x && s[k + |sep|..] == rest;
    } else {
      assert |s[..k]| < |x|;
    }
  }

  /** For which lists sdssplitlen gives back what was joined. */
  lemma SplitInvertsJoinIff(items: seq<seq<byte>>, sep: seq<byte>)
    requires sep != []
    ensures Split(Join(items, sep), sep) == Some(items) <==>
            items == [] || (items != [[]] && Separable(items, sep))
  {
    if items != [] {
      PiecesJoinIff(items, sep);
      assert |items| == 1 ==> items == [items[0]];
    }
  }

  lemma ByteOccurs(s: seq<byte>, b: byte, k: nat)
    ensures Occurs(s, [b], k) <==> k < |s| && s[k] == b
  {
    assert k < |s| ==> s[k..k + 1] == [s[k]];
  }

  lemma FirstByte(x: seq<byte>, y: seq<byte>, b: byte)
    requires y == [] || y == [b]
    ensures First(x + y, [b], 0) == |x| <==> b !in x
  {
    var s := x + y;
    if b in x {
      var i :| 0 <= i < |x| && x[i] == b;
      assert s[i..i + 1] == [b];
      if First(s, [b], 0) > i {
        FirstIsFirst(s, [b], 0, i);
      }
    } else {
      var k := First(s, [b], 0);
      ByteOccurs(s, b, k);
      if y == [b] {
        assert s[|x|..|x| + 1] == [b];
        if k > |x| {
          FirstIsFirst(s, [b], 0, |x|);
        }
      }
    }
  }

  lemma {:induction false} SeparableByte(items: seq<seq<byte>>, b: byte)
    requires items != []
    ensures Separable(items, [b]) <==> forall x :: x in items ==> b !in x
  {
    FirstByte(items[0], if |items| == 1 then [] else [b], b);
    if |items| == 1 {
      assert items[0] + [] == items[0];
    } else {
      SeparableByte(items[1..], b);
      assert items == [items[0]] + items[1..];
    }
  }

  /** With a separator of one byte: exactly the lists whose items avoid it, but for [""]. */
  lemma SplitInvertsJoinByte(items: seq<seq<byte>>, b: byte)
    ensures Split(Join(items, [b]), [b]) == Some(items) <==>
            items != [[]] && forall x :: x in items ==> b !in x
  {
    SplitInvertsJoinIff(items, [b]);
    if items != [] {
      SeparableByte(items, b);
    }
  }
}
