/**
  Splitting at a separator and joining again.
 */
module Tokens {

  /** Pieces between occurrences of a separator; always at least one. */
  function Split(s: string, c: char): (r: seq<string>)
    ensures r != []
  {
    if s == "" then [""]
    else
      var r := Split(s[1..], c);
      if s[0] == c then [""] + r else [[s[0]] + r[0]] + r[1..]
  }

  function Join(ps: seq<string>, c: char): string
    requires ps != []
  {
    if |ps| == 1 then ps[0] else ps[0] + [c] + Join(ps[1..], c)
  }

  lemma {:induction false} SplitFreeOfSeparator(s: string, c: char)
    ensures forall i :: 0 <= i < |Split(s, c)| ==> c !in Split(s, c)[i]
  {
    if s != "" {
      SplitFreeOfSeparator(s[1..], c);
    }
  }

  lemma {:induction false} SplitPlain(p: string, c: char)
    requires c !in p
    ensures Split(p, c) == [p]
  {
    if p != "" {
      SplitPlain(p[1..], c);
      assert [p[0]] + p[1..] == p;
    }
  }

  lemma {:induction false} SplitAtFirst(p: string, c: char, rest: string)
    requires c !in p
    ensures Split(p + [c] + rest, c) == [p] + Split(rest, c)
  {
    var s := p + [c] + rest;
    if p == "" {
      assert s[0] == c && s[1..] == rest;
    } else {
      assert s[0] == p[0] && s[1..] == p[1..] + [c] + rest;
      SplitAtFirst(p[1..], c, rest);
      assert [p[0]] + p[1..] == p;
    }
  }

  /** Splitting inverts joining. */
  lemma {:induction false} SplitOfJoin(ps: seq<string>, c: char)
    requires ps != [] && forall i :: 0 <= i < |ps| ==> c !in ps[i]
    ensures Split(Join(ps, c), c) == ps
  {
    if |ps| == 1 {
      SplitPlain(ps[0], c);
    } else {
      SplitAtFirst(ps[0], c, Join(ps[1..], c));
      SplitOfJoin(ps[1..], c);
    }
  }

  /** Joining inverts splitting. */
  lemma {:induction false} JoinOfSplit(s: string, c: char)
    ensures Join(Split(s, c), c) == s
  {
    if s != "" {
      JoinOfSplit(s[1..], c);
      var r := Split(s[1..], c);
      if s[0] == c {
        assert ([""] + r)[1..] == r;
        assert "" + [c] + s[1..] == s;
      } else if |r| == 1 {
        assert [s[0]] + r[0] == s;
      } else {
        var t := [[s[0]] + r[0]] + r[1..];
        assert t[1..] == r[1..];
        assert ([s[0]] + r[0]) + [c] + Join(r[1..], c) == [s[0]] + s[1..];
      }
    }
  }

  lemma {:induction false} JoinFree(ps: seq<string>, c: char, d: char)
    requires ps != [] && c != d && forall i :: 0 <= i < |ps| ==> c !in ps[i]
    ensures c !in Join(ps, d)
  {
    if |ps| > 1 {
      JoinFree(ps[1..], c, d);
    }
  }

  function Concat(ps: seq<string>): string {
    if ps == [] then "" else ps[0] + Concat(ps[1..])
  }

  lemma {:induction false} ConcatOfAppend(ps: seq<string>, qs: seq<string>)
    ensures Concat(ps + qs) == Concat(ps) + Concat(qs)
  {
    if ps == [] {
      assert ps + qs == qs;
    } else {
      assert (ps + qs)[1..] == ps[1..] + qs;
      ConcatOfAppend(ps[1..], qs);
    }
  }
}
