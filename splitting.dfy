/**
 * The tokenizers' `split`: repeatedly find the leftmost delimiter, emit the text before it
 * (when non-empty), emit the delimiter itself unless it is a space, and continue after it.
 * The delimiter set is a parameter: core/src/tokenizer.rs and src/tokenizer.rs differ only there.
 */
module Splitting {
  import opened Wrappers

  /** `str::find` for one character: the index of its first occurrence. */
  function Find(s: string, c: char): (r: Option<nat>)
    ensures r.Some? ==> r.value < |s|
  {
    if |s| == 0 then None
    else if s[0] == c then Some(0)
    else match Find(s[1..], c)
      case None => None
      case Some(x) => Some(x + 1)
  }

  lemma {:induction false} FindSpec(s: string, c: char)
    ensures Find(s, c).Some? ==> s[Find(s, c).value] == c && forall j :: 0 <= j < Find(s, c).value ==> s[j] != c
    ensures Find(s, c).None? <==> c !in s
  {
    if |s| > 0 && s[0] != c {
      FindSpec(s[1..], c);
      assert forall j :: 1 <= j < |s| ==> s[j] == s[1..][j - 1];
      assert s == [s[0]] + s[1..];
    }
  }

  /** The index of the leftmost character of s that is in pats. */
  function FirstIn(s: string, pats: seq<char>): (r: Option<nat>)
    ensures r.Some? ==> r.value < |s|
  {
    if |s| == 0 then None
    else if s[0] in pats then Some(0)
    else match FirstIn(s[1..], pats)
      case None => None
      case Some(x) => Some(x + 1)
  }

  lemma {:induction false} FirstInSpec(s: string, pats: seq<char>)
    ensures FirstIn(s, pats).Some? ==>
      s[FirstIn(s, pats).value] in pats && forall j :: 0 <= j < FirstIn(s, pats).value ==> s[j] !in pats
    ensures FirstIn(s, pats).None? <==> forall j :: 0 <= j < |s| ==> s[j] !in pats
  {
    if |s| > 0 && s[0] !in pats {
      FirstInSpec(s[1..], pats);
      assert forall j :: 1 <= j < |s| ==> s[j] == s[1..][j - 1];
    }
  }

  /** The `idxs` vector: for each pattern in order, its first index in s when it occurs. */
  function FoundIdx(s: string, pats: seq<char>): seq<nat>
  {
    if |pats| == 0 then []
    else
      FoundIdx(s, pats[..|pats| - 1]) +
      (match Find(s, pats[|pats| - 1]) case Some(x) => [x] case None => [])
  }

  /** The first element after sorting: the minimum. */
  function MinOf(xs: seq<nat>): (m: nat)
    requires |xs| > 0
    ensures m in xs && forall j :: 0 <= j < |xs| ==> m <= xs[j]
  {
    if |xs| == 1 then xs[0]
    else
      var m := MinOf(xs[..|xs| - 1]);
      assert forall j :: 0 <= j < |xs| - 1 ==> xs[j] == xs[..|xs| - 1][j];
      if xs[|xs| - 1] < m then xs[|xs| - 1] else m
  }

  /** Every index in FoundIdx holds a pattern; every pattern occurring in s has its first index there. */
  lemma {:induction false} FoundIdxContents(s: string, pats: seq<char>)
    ensures forall x :: x in FoundIdx(s, pats) ==> x < |s| && s[x] in pats
    ensures forall c :: c in pats && c in s ==> Find(s, c).Some? && Find(s, c).value in FoundIdx(s, pats)
  {
    if |pats| > 0 {
      var init := pats[..|pats| - 1];
      FoundIdxContents(s, init);
      FindSpec(s, pats[|pats| - 1]);
      assert pats == init + [pats[|pats| - 1]];
      forall c | c in pats && c in s
        ensures Find(s, c).Some? && Find(s, c).value in FoundIdx(s, pats)
      {
        FindSpec(s, c);
      }
    }
  }

  /** Sorting the found indices and taking the first is taking the leftmost delimiter. */
  lemma FoundIdxMin(s: string, pats: seq<char>)
    ensures |FoundIdx(s, pats)| == 0 <==> FirstIn(s, pats).None?
    ensures |FoundIdx(s, pats)| > 0 ==> MinOf(FoundIdx(s, pats)) == FirstIn(s, pats).value
  {
    FoundIdxContents(s, pats);
    FirstInSpec(s, pats);
    var f := FirstIn(s, pats);
    if f.Some? {
      var c := s[f.value];
      assert c in s;
      FindSpec(s, c);
      var x := Find(s, c).value;
      assert x == f.value;
      var m := MinOf(FoundIdx(s, pats));
      assert m <= f.value;
    } else if |FoundIdx(s, pats)| > 0 {
      assert FoundIdx(s, pats)[0] in FoundIdx(s, pats);
    }
  }

  /** The pieces `split` emits. */
  function Pieces(s: string, pats: seq<char>): seq<string>
    decreases |s|
  {
    match FirstIn(s, pats)
    case None => if |s| == 0 then [] else [s]
    case Some(x) => PiecesHead(s, x) + Pieces(s[x + 1..], pats)
  }

  /** What one round of `split` emits when the leftmost delimiter is s[x]. */
  function PiecesHead(s: string, x: nat): seq<string>
    requires x < |s|
  {
    (if x == 0 then [] else [s[..x]]) + (if s[x] == ' ' then [] else [[s[x]]])
  }

  /** Unfolding Pieces at its leftmost delimiter x. */
  lemma PiecesAt(s: string, pats: seq<char>, x: nat)
    requires FirstIn(s, pats) == Some(x)
    ensures Pieces(s, pats) == PiecesHead(s, x) + Pieces(s[x + 1..], pats)
  {
  }

  lemma PiecesNone(s: string, pats: seq<char>)
    requires FirstIn(s, pats) == None
    ensures Pieces(s, pats) == if |s| == 0 then [] else [s]
  {
  }

  /** A delimiter at the front is its own piece (or dropped, for a space). */
  lemma PiecesDelimiter(c: char, rest: string, pats: seq<char>)
    requires c in pats
    ensures Pieces([c] + rest, pats) == (if c == ' ' then [] else [[c]]) + Pieces(rest, pats)
  {
    var s := [c] + rest;
    assert FirstIn(s, pats) == Some(0);
    PiecesAt(s, pats, 0);
    assert s[1..] == rest;
  }

  /** A delimiter-free word followed by a delimiter. */
  lemma PiecesWord(w: string, c: char, rest: string, pats: seq<char>)
    requires |w| > 0 && (forall j :: 0 <= j < |w| ==> w[j] !in pats) && c in pats
    ensures Pieces(w + [c] + rest, pats) == [w] + (if c == ' ' then [] else [[c]]) + Pieces(rest, pats)
  {
    var s := w + [c] + rest;
    FirstInAt(s, pats, |w|);
    PiecesAt(s, pats, |w|);
    assert s[..|w|] == w && s[|w| + 1..] == rest;
  }

  /** A delimiter-free word at the end. */
  lemma PiecesFinal(w: string, pats: seq<char>)
    requires |w| > 0 && forall j :: 0 <= j < |w| ==> w[j] !in pats
    ensures Pieces(w, pats) == [w]
  {
    FirstInSpec(w, pats);
    PiecesNone(w, pats);
  }

  lemma FirstInAt(s: string, pats: seq<char>, x: nat)
    requires x < |s| && s[x] in pats && forall j :: 0 <= j < x ==> s[j] !in pats
    ensures FirstIn(s, pats) == Some(x)
  {
    FirstInSpec(s, pats);
  }

  /** The inner loop of `split`: look up every pattern in turn. */
  method FindAll(s: string, pats: seq<char>) returns (idxs: seq<nat>)
    ensures idxs == FoundIdx(s, pats)
  {
    idxs := [];
    var j := 0;
    while j < |pats|
      invariant 0 <= j <= |pats| && idxs == FoundIdx(s, pats[..j])
    {
      assert pats[..j + 1][..j] == pats[..j];
      var found := Find(s, pats[j]);
      if found.Some? {
        idxs := idxs + [found.value];
      }
      j := j + 1;
    }
    assert pats[..|pats|] == pats;
  }

  lemma AppendAssoc(a: seq<string>, b: seq<string>, c: seq<string>)
    ensures a + b + c == a + (b + c)
  {
  }

  /** One round of the loop keeps ret + Pieces(s) unchanged. */
  lemma SplitRound(s: string, pats: seq<char>, x: nat, toPush: string, delim: string, head: seq<string>, ret: seq<string>)
    requires FirstIn(s, pats) == Some(x) && toPush == s[..x] && delim == s[x..x + 1]
    requires head == (if |toPush| > 0 then [toPush] else []) + (if delim != " " then [delim] else [])
    ensures ret + head + Pieces(s[x + 1..], pats) == ret + Pieces(s, pats)
  {
    PiecesAt(s, pats, x);
    assert delim == [s[x]];
    assert head == PiecesHead(s, x);
    AppendAssoc(ret, head, Pieces(s[x + 1..], pats));
  }

  /** The source's loop: shrink s, pushing pieces onto ret. */
  method Split(s0: string, pats: seq<char>) returns (ret: seq<string>)
    ensures ret == Pieces(s0, pats)
  {
    var s := s0;
    ret := [];
    while true
      invariant ret + Pieces(s, pats) == Pieces(s0, pats)
      decreases |s|
    {
      var idxs := FindAll(s, pats);
      FoundIdxMin(s, pats);
      if |idxs| == 0 {
        PiecesNone(s, pats);
        if |s| > 0 {
          ret := ret + [s];
        }
        return;
      } else {
        var x := MinOf(idxs);
        var toPush := s[..x];
        var delim := s[x..x + 1];
        var head := [];
        if |toPush| > 0 {
          head := [toPush];
        }
        if delim != " " {
          head := head + [delim];
        }
        SplitRound(s, pats, x, toPush, delim, head, ret);
        ret := ret + head;
        s := s[x + 1..];
      }
    }
  }

  function Concat(ss: seq<string>): string {
    if |ss| == 0 then "" else ss[0] + Concat(ss[1..])
  }

  function DropSpaces(s: string): (t: string)
    ensures ' ' !in t
  {
    if |s| == 0 then "" else (if s[0] == ' ' then "" else [s[0]]) + DropSpaces(s[1..])
  }

  lemma {:induction false} ConcatAppend(a: seq<string>, b: seq<string>)
    ensures Concat(a + b) == Concat(a) + Concat(b)
  {
    if |a| > 0 {
      assert (a + b)[0] == a[0] && (a + b)[1..] == a[1..] + b;
      ConcatAppend(a[1..], b);
    } else {
      assert a + b == b;
    }
  }

  lemma {:induction false} DropSpacesAppend(u: string, v: string)
    ensures DropSpaces(u + v) == DropSpaces(u) + DropSpaces(v)
  {
    if |u| > 0 {
      assert (u + v)[1..] == u[1..] + v;
      DropSpacesAppend(u[1..], v);
    } else {
      assert u + v == v;
    }
  }

  lemma {:induction false} DropSpacesNone(u: string)
    requires ' ' !in u
    ensures DropSpaces(u) == u
  {
    if |u| > 0 {
      DropSpacesNone(u[1..]);
    }
  }

  /** Concatenating the pieces gives the input with every space removed. */
  lemma {:induction false} PiecesConcat(s: string, pats: seq<char>)
    requires ' ' in pats
    ensures Concat(Pieces(s, pats)) == DropSpaces(s)
    decreases |s|
  {
    FirstInSpec(s, pats);
    match FirstIn(s, pats)
    case None =>
      assert ' ' !in s;
      DropSpacesNone(s);
    case Some(x) =>
      PiecesAt(s, pats, x);
      var before := if x == 0 then [] else [s[..x]];
      var delim := if s[x] == ' ' then [] else [[s[x]]];
      assert ' ' !in s[..x];
      DropSpacesNone(s[..x]);
      PiecesConcat(s[x + 1..], pats);
      assert PiecesHead(s, x) == before + delim;
      ConcatAppend(before + delim, Pieces(s[x + 1..], pats));
      ConcatAppend(before, delim);
      assert s == s[..x] + [s[x]] + s[x + 1..];
      DropSpacesAppend(s[..x] + [s[x]], s[x + 1..]);
      DropSpacesAppend(s[..x], [s[x]]);
  }

  /** A piece is a single non-space delimiter or a non-empty run without delimiters. */
  predicate WellFormedPiece(p: string, pats: seq<char>) {
    |p| >= 1 && ((|p| == 1 && p[0] in pats && p[0] != ' ') || forall j :: 0 <= j < |p| ==> p[j] !in pats)
  }

  lemma {:induction false} PiecesShape(s: string, pats: seq<char>)
    ensures forall i :: 0 <= i < |Pieces(s, pats)| ==> WellFormedPiece(Pieces(s, pats)[i], pats)
    decreases |s|
  {
    FirstInSpec(s, pats);
    match FirstIn(s, pats)
    case None =>
    case Some(x) =>
      PiecesShape(s[x + 1..], pats);
  }

  /** An item of a line: a single delimiter (space included) or a non-empty word without delimiters. */
  predicate IsWord(w: string, pats: seq<char>) {
    |w| > 0 && forall j :: 0 <= j < |w| ==> w[j] !in pats
  }

  predicate IsItem(w: string, pats: seq<char>) {
    (|w| == 1 && w[0] in pats) || IsWord(w, pats)
  }

  /** Items of which no two adjacent ones are words: a line written out item by item. */
  predicate Separated(ws: seq<string>, pats: seq<char>) {
    (forall i :: 0 <= i < |ws| ==> IsItem(ws[i], pats)) &&
    (forall i :: 0 <= i < |ws| - 1 ==> !(IsWord(ws[i], pats) && IsWord(ws[i + 1], pats)))
  }

  /** The items other than single spaces. */
  function DropSpaceItems(ws: seq<string>): seq<string> {
    if |ws| == 0 then [] else (if ws[0] == " " then [] else [ws[0]]) + DropSpaceItems(ws[1..])
  }

  /** `split` recovers the items of a line, without its spaces. */
  lemma {:induction false} PiecesOfItems(ws: seq<string>, pats: seq<char>)
    requires ' ' in pats && Separated(ws, pats)
    ensures Pieces(Concat(ws), pats) == DropSpaceItems(ws)
    decreases |ws|
  {
    if |ws| == 0 {
      assert Concat(ws) == "";
    } else if !IsWord(ws[0], pats) {
      SeparatedTail(ws, pats, 1);
      PiecesOfItems(ws[1..], pats);
      ItemsDelimiterFirst(ws, pats);
    } else if |ws| == 1 {
      assert Concat(ws) == ws[0] by {
        assert Concat(ws[1..]) == "";
      }
      assert ws[0][0] != ' ';
      PiecesFinal(ws[0], pats);
    } else {
      SeparatedTail(ws, pats, 2);
      PiecesOfItems(ws[2..], pats);
      ItemsWordFirst(ws, pats);
    }
  }

  lemma Regroup(a: string, x: string, b: string, y: string, c: string)
    ensures a + x + b + y + c == a + x + (b + y + c)
  {
  }

  lemma RegroupPair(a: string, x: string, y: string, b: string, z: string, c: string)
    ensures a + x + y + b + z + c == a + x + (y + (b + z + c))
  {
  }

  lemma RegroupAround(a: string, x: string, b: string, y: string, d: string, z: string, c: string)
    ensures a + x + b + y + d + z + c == a + x + (b + y + (d + z + c))
  {
  }

  /** Three words with a space between each. */
  lemma PiecesThreeWords(a: string, b: string, c: string, pats: seq<char>)
    requires ' ' in pats && IsWord(a, pats) && IsWord(b, pats) && IsWord(c, pats)
    ensures Pieces(a + " " + b + " " + c, pats) == [a, b, c]
  {
    PiecesFinal(c, pats);
    PiecesWord(b, ' ', c, pats);
    PiecesWord(a, ' ', b + [' '] + c, pats);
    Regroup(a, " ", b, " ", c);
  }

  /** Two words, a space, a delimiter d, a space, a word: the spaces go, d stays. */
  lemma PiecesAroundDelimiter(a: string, b: string, d: char, c: string, pats: seq<char>)
    requires ' ' in pats && d in pats && d != ' ' && IsWord(a, pats) && IsWord(b, pats) && IsWord(c, pats)
    ensures Pieces(a + " " + b + " " + [d] + " " + c, pats) == [a, b, [d], c]
  {
    var tail := [d] + " " + c;
    PiecesDelimiterWord(d, c, pats);
    PiecesWord(b, ' ', tail, pats);
    PiecesWord(a, ' ', b + " " + tail, pats);
    RegroupAround(a, " ", b, " ", [d], " ", c);
  }

  lemma PiecesDelimiterWord(d: char, c: string, pats: seq<char>)
    requires ' ' in pats && d in pats && d != ' ' && IsWord(c, pats)
    ensures Pieces([d] + " " + c, pats) == [[d], c]
  {
    PiecesFinal(c, pats);
    PiecesDelimiter(' ', c, pats);
    PiecesDelimiter(d, " " + c, pats);
    assert [d] + " " + c == [d] + (" " + c);
  }

  /** A word, a space, a word, a delimiter d, a word. */
  lemma PiecesSpaceThenDelimiter(a: string, b: string, d: char, c: string, pats: seq<char>)
    requires ' ' in pats && d in pats && d != ' ' && IsWord(a, pats) && IsWord(b, pats) && IsWord(c, pats)
    ensures Pieces(a + " " + b + [d] + c, pats) == [a, b, [d], c]
  {
    PiecesFinal(c, pats);
    PiecesWord(b, d, c, pats);
    PiecesWord(a, ' ', b + [d] + c, pats);
    Regroup(a, " ", b, [d], c);
  }

  /** Word, delimiter d, space, word, delimiter e, then any rest r. */
  lemma PiecesDelimitedPair(a: string, d: char, b: string, e: char, r: string, pats: seq<char>)
    requires ' ' in pats && d in pats && e in pats && d != ' ' && e != ' '
    requires IsWord(a, pats) && IsWord(b, pats)
    ensures Pieces(a + [d] + " " + b + [e] + r, pats) == [a, [d], b, [e]] + Pieces(r, pats)
  {
    PiecesSpaceWord(b, e, r, pats);
    PiecesWord(a, d, [' '] + (b + [e] + r), pats);
    RegroupPair(a, [d], " ", b, [e], r);
  }

  /** A space, a word, a delimiter e, then any rest r. */
  lemma PiecesSpaceWord(b: string, e: char, r: string, pats: seq<char>)
    requires ' ' in pats && e in pats && e != ' ' && IsWord(b, pats)
    ensures Pieces([' '] + (b + [e] + r), pats) == [b, [e]] + Pieces(r, pats)
  {
    PiecesWord(b, e, r, pats);
    PiecesDelimiter(' ', b + [e] + r, pats);
  }

  /** The string of n copies of delimiter d is n one-character pieces. */
  lemma {:induction false} PiecesRun(d: char, n: nat, pats: seq<char>)
    requires d in pats && d != ' '
    ensures Pieces(seq(n, _ => d), pats) == seq(n, _ => [d])
  {
    if n > 0 {
      PiecesRun(d, n - 1, pats);
      PiecesDelimiter(d, seq(n - 1, _ => d), pats);
      assert seq(n, _ => d) == [d] + seq(n - 1, _ => d);
      assert seq(n, _ => [d]) == [[d]] + seq(n - 1, _ => [d]);
    }
  }

  lemma SeparatedTail(ws: seq<string>, pats: seq<char>, k: nat)
    requires Separated(ws, pats) && k <= |ws|
    ensures Separated(ws[k..], pats)
  {
    assert forall i :: 0 <= i < |ws| - k ==> ws[k..][i] == ws[i + k];
  }

  lemma ItemsDelimiterFirst(ws: seq<string>, pats: seq<char>)
    requires |ws| > 0 && IsItem(ws[0], pats) && !IsWord(ws[0], pats)
    requires Pieces(Concat(ws[1..]), pats) == DropSpaceItems(ws[1..])
    ensures Pieces(Concat(ws), pats) == DropSpaceItems(ws)
  {
    var c := ws[0][0];
    assert ws[0] == [c];
    PiecesDelimiter(c, Concat(ws[1..]), pats);
  }

  lemma FirstTwo(ws: seq<string>)
    requires |ws| > 1
    ensures Concat(ws) == ws[0] + ws[1] + Concat(ws[2..])
    ensures DropSpaceItems(ws) ==
      (if ws[0] == " " then [] else [ws[0]]) + (if ws[1] == " " then [] else [ws[1]]) + DropSpaceItems(ws[2..])
  {
    assert ws[1..][0] == ws[1] && ws[1..][1..] == ws[2..];
  }

  lemma ItemsWordFirst(ws: seq<string>, pats: seq<char>)
    requires ' ' in pats
    requires |ws| > 1 && IsWord(ws[0], pats) && IsItem(ws[1], pats) && !IsWord(ws[1], pats)
    requires Pieces(Concat(ws[2..]), pats) == DropSpaceItems(ws[2..])
    ensures Pieces(Concat(ws), pats) == DropSpaceItems(ws)
  {
    var w, c := ws[0], ws[1][0];
    assert ws[1] == [c];
    FirstTwo(ws);
    PiecesWord(w, c, Concat(ws[2..]), pats);
    assert w != " " by {
      assert w[0] !in pats;
    }
  }
}
