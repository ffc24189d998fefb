/** The keyword argument: the detector takes its keywords from one command-line argument
    with `split(',')`, and uses the pieces exactly as they come out, with no trimming and
    no dropping of empty pieces. */
module KeywordArg {

  const Separator: char := ','

  /** Python's `arg.split(',')`: the pieces between consecutive commas, left to right. */
  function SplitKeywords(arg: string): (pieces: seq<string>)
    ensures |pieces| >= 1
  {
    if arg == [] then [[]]
    else
      var rest := SplitKeywords(arg[1..]);
      if arg[0] == Separator then [[]] + rest
      else [[arg[0]] + rest[0]] + rest[1..]
  }

  /** The pieces glued back together with commas between them. */
  function JoinKeywords(pieces: seq<string>): string
    requires |pieces| >= 1
  {
    if |pieces| == 1 then pieces[0]
    else pieces[0] + [Separator] + JoinKeywords(pieces[1..])
  }

  /** How many commas `s` holds. */
  function CommaCount(s: string): nat {
    if s == [] then 0
    else (if s[0] == Separator then 1 else 0) + CommaCount(s[1..])
  }

  /** There is one piece more than there are commas. */
  lemma {:induction false} SplitCount(arg: string)
    ensures |SplitKeywords(arg)| == CommaCount(arg) + 1
  {
    if arg != [] {
      SplitCount(arg[1..]);
    }
  }

  /** No piece contains a comma. */
  lemma {:induction false} SplitPiecesHaveNoComma(arg: string)
    ensures forall q | 0 <= q < |SplitKeywords(arg)| :: Separator !in SplitKeywords(arg)[q]
  {
    if arg != [] {
      SplitPiecesHaveNoComma(arg[1..]);
      var rest := SplitKeywords(arg[1..]);
      if arg[0] != Separator {
        assert Separator !in [arg[0]] + rest[0];
      }
    }
  }

  /** Joining the pieces with commas gives back the argument. */
  lemma {:induction false} JoinSplit(arg: string)
    ensures JoinKeywords(SplitKeywords(arg)) == arg
  {
    if arg != [] {
      JoinSplit(arg[1..]);
      var rest := SplitKeywords(arg[1..]);
      if arg[0] == Separator {
        assert ([[]] + rest)[1..] == rest;
        assert JoinKeywords([[]] + rest) == [] + [Separator] + JoinKeywords(rest);
      } else {
        var pieces := [[arg[0]] + rest[0]] + rest[1..];
        if |rest| == 1 {
          assert pieces == [[arg[0]] + rest[0]];
        } else {
          assert pieces[1..] == rest[1..];
          assert JoinKeywords(rest) == rest[0] + [Separator] + JoinKeywords(rest[1..]);
        }
      }
    }
  }

  /** Splitting a comma-free prefix onto the front of a split adds it to the first piece. */
  lemma {:induction false} SplitCommaFreePrefix(a: string, r: string)
    requires Separator !in a
    ensures SplitKeywords(a + r) ==
      [a + SplitKeywords(r)[0]] + SplitKeywords(r)[1..]
  {
    if a != [] {
      SplitCommaFreePrefix(a[1..], r);
      assert (a + r)[1..] == a[1..] + r;
      assert [a[0]] + (a[1..] + SplitKeywords(r)[0]) == a + SplitKeywords(r)[0];
    } else {
      var rs := SplitKeywords(r);
      assert a + r == r && a + rs[0] == rs[0];
      assert [rs[0]] + rs[1..] == rs;
    }
  }

  /** Comma-free pieces survive a join followed by a split unchanged. */
  lemma {:induction false} SplitJoin(pieces: seq<string>)
    requires |pieces| >= 1
    requires forall q | 0 <= q < |pieces| :: Separator !in pieces[q]
    ensures SplitKeywords(JoinKeywords(pieces)) == pieces
  {
    if |pieces| == 1 {
      SplitCommaFreePrefix(pieces[0], []);
      assert pieces[0] + [] == pieces[0];
    } else {
      SplitJoin(pieces[1..]);
      var tail := [Separator] + JoinKeywords(pieces[1..]);
      assert JoinKeywords(pieces) == pieces[0] + tail;
      SplitCommaFreePrefix(pieces[0], tail);
      assert tail[1..] == JoinKeywords(pieces[1..]);
      assert SplitKeywords(tail) == [[]] + pieces[1..];
      assert pieces[0] + [] == pieces[0];
    }
  }

  /** Pieces are neither trimmed nor filtered: doubled and trailing commas give empty
      keywords, and the space after a comma stays in the next keyword. */
  lemma NoTrimmingNoFiltering()
    ensures SplitKeywords("a,,b") == ["a", "", "b"]
    ensures SplitKeywords("token,") == ["token", ""]
    ensures SplitKeywords("token, secret") == ["token", " secret"]
    ensures SplitKeywords("") == [""]
  {
    assert JoinKeywords(["a", "", "b"]) == "a,,b";
    SplitJoin(["a", "", "b"]);
    assert JoinKeywords(["token", ""]) == "token,";
    SplitJoin(["token", ""]);
    assert JoinKeywords(["token", " secret"]) == "token, secret";
    SplitJoin(["token", " secret"]);
  }
}
