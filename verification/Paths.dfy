/** Key paths: names joined by backslashes, and how the code takes them apart again. */
module Paths {
  const SLASH: char := '\\'

  /** ASCII lower case; other characters stay. */
  function LowerChar(c: char): char {
    if 'A' <= c <= 'Z' then c + 32 as char else c
  }

  function Lower(s: string): (r: string)
    ensures |r| == |s| && forall i :: 0 <= i < |s| ==> r[i] == LowerChar(s[i])
  {
    seq(|s|, i requires 0 <= i < |s| => LowerChar(s[i]))
  }

  /** The 26 pairs... */
  lemma LowerLetters()
    ensures Lower("ABCDEFGHIJKLMNOPQRSTUVWXYZ") == "abcdefghijklmnopqrstuvwxyz"
  {
  }

  /** ... and every other character as it is. */
  lemma OtherCharacters(c: char)
    ensures c in "ABCDEFGHIJKLMNOPQRSTUVWXYZ" || Lower([c]) == [c]
  {
    if 'A' <= c <= 'Z' { assert "ABCDEFGHIJKLMNOPQRSTUVWXYZ"[c as int - 65] == c; }
  }

  lemma LowerLaws(s: string, t: string)
    ensures Lower(Lower(s)) == Lower(s)
    ensures Lower(s + t) == Lower(s) + Lower(t)
  {
  }

  /** `str::split('\\')`: the pieces between backslashes; never empty. */
  function Split(s: string): (r: seq<string>)
    ensures r != []
  {
    if s == [] then [[]]
    else
      var rest := Split(s[1..]);
      if s[0] == SLASH then [[]] + rest else Attach(s[0], rest)
  }

  /** Puts one character before the first piece. */
  function Attach(c: char, pieces: seq<string>): (r: seq<string>)
    requires pieces != []
    ensures r != []
  {
    [[c] + pieces[0]] + pieces[1..]
  }

  lemma AttachConcat(c: char, pieces: seq<string>, more: seq<string>)
    requires pieces != []
    ensures Attach(c, pieces + more) == Attach(c, pieces) + more
  {
    assert (pieces + more)[1..] == pieces[1..] + more;
  }

  ghost predicate Plain(name: string) {
    SLASH !in name
  }

  ghost predicate AllPlain(names: seq<string>) {
    forall i :: 0 <= i < |names| ==> Plain(names[i])
  }

  /** The path of a key: a backslash before every name from the root down. */
  function PathOf(names: seq<string>): string {
    if names == [] then [] else PathOf(names[..|names| - 1]) + [SLASH] + names[|names| - 1]
  }

  lemma PathOfChild(names: seq<string>, name: string)
    ensures PathOf(names + [name]) == PathOf(names) + [SLASH] + name
  {
    assert (names + [name])[..|names|] == names;
  }

  lemma {:induction false} SplitPlain(name: string)
    requires Plain(name)
    ensures Split(name) == [name]
  {
    if name != [] {
      SplitPlain(name[1..]);
      assert [name[0]] + name[1..] == name;
    }
  }

  /** Splitting a joined string splits both parts. */
  lemma {:induction false} SplitConcat(a: string, b: string)
    ensures Split(a + [SLASH] + b) == Split(a) + Split(b)
    decreases |a|
  {
    hide Attach;
    var s := a + [SLASH] + b;
    if a == [] {
      assert s[1..] == b;
    } else {
      assert s[1..] == a[1..] + [SLASH] + b && s[0] == a[0];
      SplitConcat(a[1..], b);
      AttachConcat(a[0], Split(a[1..]), Split(b));
      assert [[]] + (Split(a[1..]) + Split(b)) == ([[]] + Split(a[1..])) + Split(b);
    }
  }

  lemma SplitJoin(a: string, name: string)
    requires Plain(name)
    ensures Split(a + [SLASH] + name) == Split(a) + [name]
  {
    SplitConcat(a, name);
    SplitPlain(name);
  }

  /** Splitting the path of plain names gives the names back, after the empty piece before the first backslash. */
  lemma {:induction false} SplitPath(names: seq<string>)
    requires AllPlain(names)
    ensures Split(PathOf(names)) == [[]] + names
    decreases |names|
  {
    if names != [] {
      var front, last := names[..|names| - 1], names[|names| - 1];
      SplitPath(front);
      SplitJoin(PathOf(front), last);
      assert names == front + [last];
    }
  }

  function LowerAll(names: seq<string>): (r: seq<string>)
    ensures |r| == |names| && forall i :: 0 <= i < |r| ==> r[i] == Lower(names[i])
  {
    seq(|names|, i requires 0 <= i < |names| => Lower(names[i]))
  }

  /** The lower case of a path is the path of the lower-case names. */
  lemma {:induction false} LowerPath(names: seq<string>)
    ensures Lower(PathOf(names)) == PathOf(LowerAll(names))
    decreases |names|
  {
    if names != [] {
      var front, last := names[..|names| - 1], names[|names| - 1];
      LowerPath(front);
      LowerLaws(PathOf(front) + [SLASH], last);
      LowerLaws(PathOf(front), [SLASH]);
      assert Lower([SLASH]) == [SLASH];
      assert LowerAll(names)[..|names| - 1] == LowerAll(front);
    }
  }

  lemma LowerKeepsPlain(names: seq<string>)
    requires AllPlain(names)
    ensures AllPlain(LowerAll(names))
  {
    forall i | 0 <= i < |names|
      ensures Plain(LowerAll(names)[i])
    {
      assert Plain(names[i]);
    }
  }

  // ----- The root name is stripped by length -----

  /** Where the path continues after the root name and the backslash behind it; 0 if there is no such place. */
  function RootPathOffset(path: string): nat {
    if path == [] || path[0] != SLASH then 0
    else
      var i := Find(path[1..]);
      if i == |path| - 1 then 0 else i + 2
  }

  /** The index of the first backslash, or the length. */
  function Find(s: string): (i: nat)
    ensures i <= |s|
    ensures i < |s| ==> s[i] == SLASH
    ensures SLASH !in s[..i]
  {
    if s == [] || s[0] == SLASH then 0 else 1 + Find(s[1..])
  }

  /** For a key below the root, the offset leaves exactly the names below the root. */
  lemma RootIsStripped(names: seq<string>)
    requires AllPlain(names) && |names| > 1
    ensures var path := PathOf(names);
            && RootPathOffset(path) == |names[0]| + 2 <= |path|
            && Split(path[|names[0]| + 2..]) == names[1..]
  {
    hide PathOf, Split, Find;
    var path, root := PathOf(names), names[0];
    var below := Rest(names);
    assert Plain(root);
    FindAfter(root, below);
    assert path[0] == SLASH && path[1..] == root + [SLASH] + below && |path| == |root| + 2 + |below|;
    assert path[|root| + 2..] == below;
  }

  lemma {:induction false} FindAfter(name: string, below: string)
    requires Plain(name)
    ensures Find(name + [SLASH] + below) == |name|
  {
    var s := name + [SLASH] + below;
    if name != [] {
      assert s[1..] == name[1..] + [SLASH] + below && s[0] == name[0];
      FindAfter(name[1..], below);
    }
  }

  /** The part of a path below the root name, without the backslash before it. */
  lemma {:induction false} Rest(names: seq<string>) returns (below: string)
    requires AllPlain(names) && |names| > 1
    ensures PathOf(names) == [SLASH] + names[0] + [SLASH] + below
    ensures Split(below) == names[1..]
    decreases |names|
  {
    var front, last := names[..|names| - 1], names[|names| - 1];
    if |names| == 2 {
      below := last;
      SplitPlain(last);
      assert front == [names[0]] && front[..0] == [];
      assert PathOf(front) == [SLASH] + names[0];
    } else {
      var b := Rest(front);
      below := b + [SLASH] + last;
      SplitJoin(b, last);
      assert names[1..] == front[1..] + [last];
    }
  }

  /** A string is determined by its pieces. */
  lemma {:induction false} SplitInjective(a: string, b: string)
    requires Split(a) == Split(b)
    ensures a == b
    decreases |a|
  {
    if a != [] { FirstPiece(a); }
    if b != [] { FirstPiece(b); }
    if a != [] && b != [] {
      assert a == [a[0]] + a[1..] && b == [b[0]] + b[1..];
      SplitInjective(a[1..], b[1..]);
    }
  }

  /** The first piece and the other pieces of a string, from those of its tail. */
  lemma FirstPiece(a: string)
    requires a != []
    ensures var s, t := Split(a), Split(a[1..]);
            if a[0] == SLASH then s[0] == [] && s[1..] == t
            else s[0] != [] && s[0][0] == a[0] && s[0][1..] == t[0] && s[1..] == t[1..]
    ensures var t := Split(a[1..]); t == [t[0]] + t[1..]
  {
  }

  lemma {:induction false} SplitLower(s: string)
    ensures Split(Lower(s)) == LowerAll(Split(s))
    decreases |s|
  {
    var t := Lower(s);
    if s == [] {
      var piece: string := [];
      assert t == piece && LowerAll([piece]) == [piece];
    } else {
      SplitLower(s[1..]);
      assert t[1..] == Lower(s[1..]) && t[0] == LowerChar(s[0]);
      LowerPieces(s[0], Split(s[1..]));
    }
  }

  lemma LowerPieces(c: char, pieces: seq<string>)
    requires pieces != []
    ensures LowerAll([[]] + pieces) == [[]] + LowerAll(pieces)
    ensures LowerAll(Attach(c, pieces)) == Attach(LowerChar(c), LowerAll(pieces))
  {
    assert Lower([]) == [];
    assert Lower([c] + pieces[0]) == [LowerChar(c)] + Lower(pieces[0]);
    assert LowerAll(pieces)[1..] == LowerAll(pieces[1..]);
  }
}
