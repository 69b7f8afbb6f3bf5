/** Output as a list of pieces, written into bounded room the way vsnprintf of
    kernel/kernel/debug.c does it: a piece that starts with "0x" needs two characters or is dropped. */
module Pieces {
  import opened Wrappers

  datatype Piece = Text(t: string) | Prefixed(t: string)

  predicate PiecesOk(ps: seq<Piece>)
  {
    forall i :: 0 <= i < |ps| && ps[i].Prefixed? ==> |ps[i].t| >= 3 && ps[i].t[0] == '0'
  }

  /** The first `n` characters. */
  function Take(s: string, n: nat): (r: string)
    ensures |r| == if |s| <= n then |s| else n
  {
    if |s| <= n then s else s[..n]
  }

  /** The ideal output: no bound on its length. */
  function Whole(ps: seq<Piece>): string
  {
    if ps == [] then "" else ps[0].t + Whole(ps[1..])
  }

  /** What is stored of one piece with `room` characters left. */
  function Stored(p: Piece, room: nat): (t: string)
    ensures |t| <= room
  {
    if p.Prefixed? && room < 2 then "" else Take(p.t, room)
  }

  /** What is stored of all of them. */
  function Cut(ps: seq<Piece>, room: nat): (r: string)
    ensures |r| <= room
    decreases |ps|
  {
    if ps == [] || room == 0 then ""
    else Stored(ps[0], room) + Cut(ps[1..], room - |Stored(ps[0], room)|)
  }

  /** The pieces after a prefixed one that finds exactly one character left. */
  function Starved(ps: seq<Piece>, room: nat): Option<seq<Piece>>
    decreases |ps|
  {
    if ps == [] || room == 0 then None
    else if ps[0].Prefixed? && room < 2 then Some(ps[1..])
    else Starved(ps[1..], room - |Take(ps[0].t, room)|)
  }

  /** The first character of the output once all prefixed pieces are taken out. */
  function FirstPlain(ps: seq<Piece>): Option<char>
  {
    if ps == [] then None
    else if ps[0].Prefixed? || ps[0].t == "" then FirstPlain(ps[1..])
    else Some(ps[0].t[0])
  }

  lemma {:induction false} OneCharacter(ps: seq<Piece>)
    ensures Cut(ps, 1) == (match FirstPlain(ps) case Some(c) => [c] case None => "")
  {
    if ps != [] {
      OneCharacter(ps[1..]);
    }
  }

  lemma TakeConcat(t: string, rest: string, room: nat)
    ensures Take(t + rest, room) == Take(t, room) + Take(rest, room - |Take(t, room)|)
  {
  }

  lemma SamePrefix(p: string, s: string, t: string)
    ensures p + s == p + t <==> s == t
  {
    assert (p + s)[|p|..] == s && (p + t)[|p|..] == t;
  }

  lemma TakeStep(head: string, rest: string, stored: string, room: nat)
    ensures Take(head, room) + stored == Take(head + rest, room) <==> stored == Take(rest, room - |Take(head, room)|)
  {
    TakeConcat(head, rest, room);
    SamePrefix(Take(head, room), stored, Take(rest, room - |Take(head, room)|));
  }

  /** What is stored is the longest prefix of the ideal output that fits, exactly when no prefixed
      piece finds one character left, or the plain text after it starts with '0' too. */
  lemma {:induction false} CutIsPrefix(ps: seq<Piece>, room: nat)
    requires PiecesOk(ps)
    ensures var starved := Starved(ps, room);
            Cut(ps, room) == Take(Whole(ps), room) <==> starved.None? || FirstPlain(starved.value) == Some('0')
    decreases |ps|
  {
    if ps != [] && room > 0 {
      if ps[0].Prefixed? && room < 2 {
        OneCharacter(ps[1..]);
        assert Take(Whole(ps), 1) == ['0'];
        assert Cut(ps, 1) == "" + Cut(ps[1..], 1) == Cut(ps[1..], 1);
      } else {
        var left := room - |Take(ps[0].t, room)|;
        TakeStep(ps[0].t, Whole(ps[1..]), Cut(ps[1..], left), room);
        CutIsPrefix(ps[1..], left);
      }
    }
  }

  /** With room for all of it, nothing is lost. */
  lemma {:induction false} NothingLost(ps: seq<Piece>, room: nat)
    requires PiecesOk(ps) && |Whole(ps)| <= room
    ensures Cut(ps, room) == Whole(ps)
    decreases |ps|
  {
    if ps != [] {
      NothingLost(ps[1..], room - |ps[0].t|);
    }
  }
}
