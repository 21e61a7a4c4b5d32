/** The two free helpers of the script interpreter: `split`, which hands
    every delimiter-separated piece of a string to a callback, and
    `isInteger`. The callback is modelled by returning the pieces in the
    order the callback would receive them. */
module JsText {
  import opened Text

  /** The pieces `split` produces for the text from beg on: std::find the
      delimiter, emit the piece before it, continue after it; the piece
      after the last delimiter is emitted too, even when it is empty. */
  function PiecesFrom(s: string, delim: char, beg: nat): seq<string>
    requires beg <= |s|
    decreases |s| - beg
  {
    var e := FindChar(s, delim, beg);
    if e == |s| then [s[beg..]] else [s[beg..e]] + PiecesFrom(s, delim, e + 1)
  }

  /** What `split(str, delim, op)` passes to op, in order: nothing at all
      for the empty string. */
  function SplitSpec(s: string, delim: char): seq<string>
  {
    if s == [] then [] else PiecesFrom(s, delim, 0)
  }

  /** `split`: the loop over std::find that calls op once per piece. */
  method Split(s: string, delim: char) returns (pieces: seq<string>)
    ensures pieces == SplitSpec(s, delim)
  {
    pieces := [];
    if s == [] {
      return;
    }
    var beg := 0;
    while true
      invariant 0 <= beg <= |s|
      invariant pieces + PiecesFrom(s, delim, beg) == SplitSpec(s, delim)
      decreases |s| - beg
    {
      var e := FindChar(s, delim, beg);
      if e == |s| {
        assert PiecesFrom(s, delim, beg) == [s[beg..]];
        pieces := pieces + [s[beg..]];
        return;
      }
      assert PiecesFrom(s, delim, beg) == [s[beg..e]] + PiecesFrom(s, delim, e + 1);
      assert pieces + PiecesFrom(s, delim, beg) == (pieces + [s[beg..e]]) + PiecesFrom(s, delim, e + 1);
      pieces := pieces + [s[beg..e]];
      beg := e + 1;
    }
  }

  /** Joining pieces with the delimiter between them. */
  function Join(pieces: seq<string>, delim: char): string
  {
    if pieces == [] then []
    else if |pieces| == 1 then pieces[0]
    else pieces[0] + [delim] + Join(pieces[1..], delim)
  }

  lemma {:induction false} PiecesFromJoin(s: string, delim: char, beg: nat)
    requires beg <= |s|
    ensures Join(PiecesFrom(s, delim, beg), delim) == s[beg..]
    decreases |s| - beg
  {
    var e := FindChar(s, delim, beg);
    var ps := PiecesFrom(s, delim, beg);
    if e < |s| {
      PiecesFromJoin(s, delim, e + 1);
      var rest := PiecesFrom(s, delim, e + 1);
      assert ps == [s[beg..e]] + rest;
      assert rest != [] && ps[1..] == rest;
      assert Join(ps, delim) == s[beg..e] + [delim] + Join(rest, delim);
      assert s[beg..] == s[beg..e] + [delim] + s[e + 1..];
    } else {
      assert ps == [s[beg..]];
    }
  }

  lemma {:induction false} PiecesFromNoDelim(s: string, delim: char, beg: nat)
    requires beg <= |s|
    ensures forall k :: 0 <= k < |PiecesFrom(s, delim, beg)| ==> delim !in PiecesFrom(s, delim, beg)[k]
    decreases |s| - beg
  {
    var e := FindChar(s, delim, beg);
    var ps := PiecesFrom(s, delim, beg);
    if e < |s| {
      PiecesFromNoDelim(s, delim, e + 1);
      var rest := PiecesFrom(s, delim, e + 1);
      assert ps == [s[beg..e]] + rest;
      forall k | 0 <= k < |ps|
        ensures delim !in ps[k]
      {
        if k > 0 {
          assert ps[k] == rest[k - 1];
        }
      }
    } else {
      assert ps == [s[beg..]];
    }
  }

  /** Joining the pieces of `split` with the delimiter gives the input back,
      and no piece contains the delimiter. */
  lemma SplitJoin(s: string, delim: char)
    ensures Join(SplitSpec(s, delim), delim) == s
    ensures forall k :: 0 <= k < |SplitSpec(s, delim)| ==> delim !in SplitSpec(s, delim)[k]
  {
    if s != [] {
      PiecesFromJoin(s, delim, 0);
      PiecesFromNoDelim(s, delim, 0);
    }
  }

  /** Occurrences of c in s from index beg on. */
  function CountFrom(s: string, c: char, beg: nat): nat
    requires beg <= |s|
    decreases |s| - beg
  {
    if beg == |s| then 0 else (if s[beg] == c then 1 else 0) + CountFrom(s, c, beg + 1)
  }

  lemma {:induction false} CountSkip(s: string, c: char, beg: nat, e: nat)
    requires beg <= e <= |s|
    requires forall i :: beg <= i < e ==> s[i] != c
    ensures CountFrom(s, c, beg) == CountFrom(s, c, e)
    decreases e - beg
  {
    if beg < e {
      CountSkip(s, c, beg + 1, e);
    }
  }

  lemma {:induction false} PiecesFromCount(s: string, delim: char, beg: nat)
    requires beg <= |s|
    ensures |PiecesFrom(s, delim, beg)| == CountFrom(s, delim, beg) + 1
    decreases |s| - beg
  {
    var e := FindChar(s, delim, beg);
    CountSkip(s, delim, beg, e);
    if e < |s| {
      PiecesFromCount(s, delim, e + 1);
    }
  }

  /** `split` on a non-empty string with k delimiters calls op k + 1 times;
      on the empty string it never calls op. */
  lemma SplitCount(s: string, delim: char)
    ensures s == [] ==> SplitSpec(s, delim) == []
    ensures s != [] ==> |SplitSpec(s, delim)| == CountFrom(s, delim, 0) + 1
  {
    if s != [] {
      PiecesFromCount(s, delim, 0);
    }
  }

  /** No piece is longer than the text it was cut from. */
  lemma {:induction false} PiecesFromShorter(s: string, delim: char, beg: nat)
    requires beg <= |s|
    ensures forall k :: 0 <= k < |PiecesFrom(s, delim, beg)| ==> |PiecesFrom(s, delim, beg)[k]| <= |s| - beg
    decreases |s| - beg
  {
    var e := FindChar(s, delim, beg);
    var ps := PiecesFrom(s, delim, beg);
    if e < |s| {
      PiecesFromShorter(s, delim, e + 1);
      var rest := PiecesFrom(s, delim, e + 1);
      assert ps == [s[beg..e]] + rest;
      forall k | 0 <= k < |ps|
        ensures |ps[k]| <= |s| - beg
      {
        if k > 0 {
          assert ps[k] == rest[k - 1];
        }
      }
    } else {
      assert ps == [s[beg..]];
    }
  }

  lemma SplitShorter(s: string, delim: char)
    ensures forall k :: 0 <= k < |SplitSpec(s, delim)| ==> |SplitSpec(s, delim)[k]| <= |s|
  {
    if s != [] {
      PiecesFromShorter(s, delim, 0);
    }
  }

  const DigitSet: set<char> := {'0', '1', '2', '3', '4', '5', '6', '7', '8', '9'}

  /** `isInteger`: find_first_not_of("0123456789") finds nothing. */
  function IsInteger(s: string): (b: bool)
    ensures b <==> AllDigits(s)
  {
    assert forall c :: c in DigitSet <==> IsDigit(c);
    FindFirstNotOf(s, DigitSet, 0).None?
  }
}
