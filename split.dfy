/** Java's `s.split("\\.")`, which DnsQuery uses to cut a domain name into
    labels: the string is cut at every '.', trailing empty strings are
    dropped, leading and interior empty strings are kept, and a string with
    no '.' at all comes back as the one-element array holding it (so ""
    gives [""] while "." gives []). */
module JavaSplit {

  /** The pieces between the dots, every empty one included. */
  function Pieces(s: string): (r: seq<string>)
    ensures |r| >= 1
  {
    if s == [] then [[]]
    else
      var rest := Pieces(s[1..]);
      if s[0] == '.' then [[]] + rest
      else [[s[0]] + rest[0]] + rest[1..]
  }

  /** Glue pieces back together with a '.' between neighbours. */
  function Join(ps: seq<string>): string
    requires |ps| >= 1
  {
    if |ps| == 1 then ps[0] else ps[0] + "." + Join(ps[1..])
  }

  /** Pieces is undone by Join. */
  lemma {:induction false} PiecesJoin(s: string)
    ensures Join(Pieces(s)) == s
  {
    if s != [] {
      var rest := Pieces(s[1..]);
      PiecesJoin(s[1..]);
      if s[0] == '.' {
        JoinAfterEmpty(rest);
      } else {
        JoinExtendFirst(s[0], rest);
      }
      assert s == [s[0]] + s[1..];
    }
  }

  lemma JoinAfterEmpty(rest: seq<string>)
    requires |rest| >= 1
    ensures Join([[]] + rest) == "." + Join(rest)
  {
    var ps := [[]] + rest;
    assert ps[0] == [] && ps[1..] == rest;
  }

  lemma JoinExtendFirst(c: char, rest: seq<string>)
    requires |rest| >= 1
    ensures Join([[c] + rest[0]] + rest[1..]) == [c] + Join(rest)
  {
    var ps := [[c] + rest[0]] + rest[1..];
    if |rest| > 1 {
      assert ps[1..] == rest[1..];
      assert Join(ps) == [c] + rest[0] + "." + Join(rest[1..]);
    }
  }

  /** No piece holds a dot. */
  lemma {:induction false} PiecesDotFree(s: string)
    ensures forall i | 0 <= i < |Pieces(s)| :: '.' !in Pieces(s)[i]
  {
    if s != [] {
      var rest := Pieces(s[1..]);
      PiecesDotFree(s[1..]);
      if s[0] != '.' {
        var ps := Pieces(s);
        assert ps == [[s[0]] + rest[0]] + rest[1..];
        forall i | 0 <= i < |ps|
          ensures '.' !in ps[i]
        {
          if i > 0 {
            assert ps[i] == rest[i];
          }
        }
      }
    }
  }

  /** Drop the empty strings at the end, as `split` with no limit does. */
  function DropTrailingEmpty(ps: seq<string>): (r: seq<string>)
    ensures |r| <= |ps| && r == ps[..|r|]
    ensures r == [] || r[|r| - 1] != []
    ensures forall j | |r| <= j < |ps| :: ps[j] == []
  {
    if ps == [] then []
    else if ps[|ps| - 1] == [] then DropTrailingEmpty(ps[..|ps| - 1])
    else ps
  }

  /** `s.split("\\.")`. */
  function Split(s: string): (r: seq<string>)
    ensures '.' !in s ==> r == [s]
    ensures '.' in s ==> r == DropTrailingEmpty(Pieces(s))
    ensures forall i | 0 <= i < |r| :: '.' !in r[i]
  {
    PiecesDotFree(s);
    if '.' !in s then [s]
    else
      var r := DropTrailingEmpty(Pieces(s));
      assert forall i | 0 <= i < |r| :: r[i] == Pieces(s)[i];
      r
  }

  lemma PiecesOfShort()
    ensures Pieces("") == [""]
    ensures Pieces(".") == ["", ""]
    ensures Pieces("a") == ["a"] && Pieces("b") == ["b"]
  {
    assert "a"[1..] == "" && "b"[1..] == "" && "."[1..] == "";
    assert Pieces("a") == [['a'] + ""] + [""][1..];
    assert Pieces("b") == [['b'] + ""] + [""][1..];
    assert ['a'] + "" == "a" && ['b'] + "" == "b" && [""][1..] == [];
  }

  /** The empty string has no dot and comes back whole; a lone dot gives
      only empty strings, all dropped. */
  lemma SplitEmptyAndDot()
    ensures Split("") == [""]
    ensures Split(".") == []
  {
    PiecesOfShort();
  }

  /** A trailing dot leaves no empty label behind, a leading one does. */
  lemma SplitEdgeDots()
    ensures Split("a.") == ["a"]
    ensures Split(".a") == ["", "a"]
  {
    PiecesOfShort();
    assert "a."[1..] == "." && ".a"[1..] == "a";
    assert Pieces("a.") == ["a", ""];
  }

  /** Two dots in a row leave an empty label between them. */
  lemma SplitDoubleDot()
    ensures Split("a..b") == ["a", "", "b"]
  {
    PiecesOfShort();
    assert ".b"[1..] == "b" && "..b"[1..] == ".b" && "a..b"[1..] == "..b";
    assert Pieces(".b") == ["", "b"];
    assert Pieces("..b") == ["", "", "b"];
    assert Pieces("a..b") == ["a", "", "b"];
  }
}
