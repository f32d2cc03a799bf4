/** Cutting text at a separator and joining it again. */
module Splitting {
  import opened Octets

  const NPOS := -1

  /** `std::string::find` of one byte. */
  function Find(s: Bytes, c: Byte, from: nat): (r: int)
    requires from <= |s|
    ensures r == NPOS || (from <= r < |s| && s[r] == c)
    decreases |s| - from
  {
    if from == |s| then NPOS else if s[from] == c then from else Find(s, c, from + 1)
  }

  lemma {:induction false} FindFirst(s: Bytes, c: Byte, from: nat)
    requires from <= |s|
    ensures Find(s, c, from) == NPOS <==> c !in s[from..]
    ensures Find(s, c, from) != NPOS ==> s[Find(s, c, from)] == c && c !in s[from..Find(s, c, from)]
    decreases |s| - from
  {
    if from < |s| && s[from] != c {
      FindFirst(s, c, from + 1);
      assert s[from..] == [s[from]] + s[from + 1..];
      var r := Find(s, c, from + 1);
      assert r != NPOS ==> s[from..r] == [s[from]] + s[from + 1..r];
    }
  }

  lemma FindAny(s: Bytes, c: Byte)
    ensures Find(s, c, 0) == NPOS <==> c !in s
  {
    FindFirst(s, c, 0);
    assert s[0..] == s;
  }

  function Split(s: Bytes, c: Byte): (ps: seq<Bytes>)
    ensures |ps| > 0
  {
    if s == [] then [[]]
    else
      var rest := Split(s[1..], c);
      if s[0] == c then [[]] + rest else [[s[0]] + rest[0]] + rest[1..]
  }

  function Join(ps: seq<Bytes>, c: Byte): Bytes {
    if ps == [] then []
    else if |ps| == 1 then ps[0]
    else ps[0] + [c] + Join(ps[1..], c)
  }

  // ---- how Split meets concatenation -------------------------------------

  lemma {:induction false} SplitAppend(s: Bytes, t: Bytes, c: Byte)
    ensures Split(s + [c] + t, c) == Split(s, c) + Split(t, c)
  {
    var u := s + [c] + t;
    if s == [] {
      assert u[1..] == t;
    } else {
      assert u[1..] == s[1..] + [c] + t;
      SplitAppend(s[1..], t, c);
    }
  }

  lemma {:induction false} SplitTail(s: Bytes, t: Bytes, c: Byte)
    requires c !in t
    ensures var ps := Split(s, c);
            Split(s + t, c) == ps[..|ps| - 1] + [ps[|ps| - 1] + t]
  {
    if s == [] {
      assert s + t == t;
      SplitNone(t, c);
    } else {
      assert (s + t)[1..] == s[1..] + t;
      SplitTail(s[1..], t, c);
      var rest := Split(s[1..], c);
      var longer := rest[..|rest| - 1] + [rest[|rest| - 1] + t];
      var ps := Split(s, c);
      if s[0] == c {
        assert ps[..|ps| - 1] == [[]] + rest[..|rest| - 1];
      } else if |rest| == 1 {
        assert [s[0]] + longer[0] == ps[0] + t;
      } else {
        assert longer[1..] == rest[1..|rest| - 1] + [rest[|rest| - 1] + t];
        assert ps[..|ps| - 1] == [[s[0]] + rest[0]] + rest[1..|rest| - 1];
      }
    }
  }

  lemma {:induction false} SplitNone(s: Bytes, c: Byte)
    requires c !in s
    ensures Split(s, c) == [s]
  {
    if s != [] {
      SplitNone(s[1..], c);
      assert [s[0]] + s[1..] == s;
    }
  }

  lemma SplitFirst(s: Bytes, c: Byte, i: nat)
    requires i < |s| && s[i] == c && c !in s[..i]
    ensures Split(s, c) == [s[..i]] + Split(s[i + 1..], c)
  {
    assert s == s[..i] + [c] + s[i + 1..];
    SplitAppend(s[..i], s[i + 1..], c);
    SplitNone(s[..i], c);
  }

  /** One step of a scan for pieces by position. */
  lemma SplitFrom(s: Bytes, c: Byte, from: nat)
    requires from <= |s|
    ensures var n := Find(s, c, from);
            Split(s[from..], c) == if n == NPOS then [s[from..]] else [s[from..n]] + Split(s[n + 1..], c)
  {
    var n := Find(s, c, from);
    FindFirst(s, c, from);
    if n == NPOS {
      SplitNone(s[from..], c);
    } else {
      SplitFirst(s[from..], c, n - from);
      assert s[from..][..n - from] == s[from..n];
      assert s[from..][n - from + 1..] == s[n + 1..];
    }
  }

  /** Pieces hold no separator and nothing that was not in the text. */
  lemma {:induction false} PiecesClean(s: Bytes, c: Byte)
    ensures forall p :: p in Split(s, c) ==> c !in p && forall x :: x in p ==> x in s
  {
    if s != [] {
      PiecesClean(s[1..], c);
    }
  }

  lemma {:induction false} JoinSplit(s: Bytes, c: Byte)
    ensures Join(Split(s, c), c) == s
  {
    if s != [] {
      JoinSplit(s[1..], c);
      var rest := Split(s[1..], c);
      if s[0] == c {
        assert ([[]] + rest)[1..] == rest;
      } else {
        assert ([[s[0]] + rest[0]] + rest[1..])[1..] == rest[1..];
      }
    }
  }

  lemma {:induction false} SplitJoin(ps: seq<Bytes>, c: Byte)
    requires ps != [] && forall p :: p in ps ==> c !in p
    ensures Split(Join(ps, c), c) == ps
  {
    SplitNone(ps[0], c);
    if |ps| > 1 {
      SplitJoin(ps[1..], c);
      SplitAppend(ps[0], Join(ps[1..], c), c);
    }
  }

  /** The same with one part that may hold separators itself. */
  lemma {:induction false} SplitJoinAround(ps: seq<Bytes>, s: Bytes, qs: seq<Bytes>, c: Byte)
    requires forall p :: p in ps + qs ==> c !in p
    ensures Split(Join(ps + [s] + qs, c), c) == ps + Split(s, c) + qs
  {
    hide Split;
    var all := ps + [s] + qs;
    if ps != [] {
      assert ps[0] in ps + qs && forall p :: p in ps[1..] + qs ==> p in ps + qs;
      SplitJoinAround(ps[1..], s, qs, c);
      assert all[1..] == ps[1..] + [s] + qs;
      SplitNone(ps[0], c);
      SplitAppend(ps[0], Join(all[1..], c), c);
      assert ps + Split(s, c) + qs == [ps[0]] + (ps[1..] + Split(s, c) + qs);
    } else if qs != [] {
      assert forall q :: q in qs ==> q in ps + qs;
      assert all[1..] == qs;
      SplitJoin(qs, c);
      SplitAppend(s, Join(qs, c), c);
    }
  }

  lemma {:induction false} JoinSnoc(ps: seq<Bytes>, q: Bytes, c: Byte)
    requires ps != []
    ensures Join(ps + [q], c) == Join(ps, c) + [c] + q
  {
    if |ps| > 1 {
      JoinSnoc(ps[1..], q, c);
      assert (ps + [q])[1..] == ps[1..] + [q];
    }
  }

  /** Bytes of a joined text come from a part or are the separator. */
  lemma {:induction false} JoinBytes(ps: seq<Bytes>, c: Byte, x: Byte)
    requires x != c && forall p :: p in ps ==> x !in p
    ensures x !in Join(ps, c)
  {
    if |ps| > 1 {
      JoinBytes(ps[1..], c, x);
    }
  }

  // ---- counting -----------------------------------------------------------

  function Count(s: Bytes, c: Byte): nat {
    if s == [] then 0 else Count(s[1..], c) + if s[0] == c then 1 else 0
  }

  lemma {:induction false} CountAppend(s: Bytes, t: Bytes, c: Byte)
    ensures Count(s + t, c) == Count(s, c) + Count(t, c)
  {
    if s == [] {
      assert s + t == t;
    } else {
      assert (s + t)[1..] == s[1..] + t;
      CountAppend(s[1..], t, c);
    }
  }

  function CountAll(ps: seq<Bytes>, c: Byte): nat {
    if ps == [] then 0 else Count(ps[0], c) + CountAll(ps[1..], c)
  }

  lemma {:induction false} CountJoin(ps: seq<Bytes>, sep: Byte, c: Byte)
    requires sep != c
    ensures Count(Join(ps, sep), c) == CountAll(ps, c)
  {
    if |ps| > 1 {
      CountJoin(ps[1..], sep, c);
      CountAppend(ps[0] + [sep], Join(ps[1..], sep), c);
      CountAppend(ps[0], [sep], c);
    } else if |ps| == 1 {
      assert CountAll(ps[1..], c) == 0;
    }
  }
}
