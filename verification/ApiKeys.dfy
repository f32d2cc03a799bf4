/** The cache keys of the Mongo API as strings, and what two requests with one key have in common. */
module ApiKeys {
  import opened Options

  /** How a parameter is written into a key; an absent one is written as Python writes None. */
  function Shown(s: Option<string>): string { if s.Some? then s.value else "None" }

  function Digit(d: nat): char
    requires d < 10
  {
    '0' + d as char
  }

  function Digits(n: nat): string {
    if n < 10 then [Digit(n)] else Digits(n / 10) + [Digit(n % 10)]
  }

  function Decimal(n: int): string { if n < 0 then "-" + Digits(-n) else Digits(n) }

  function ShownInt(n: Option<int>): string { if n.Some? then Decimal(n.value) else "None" }

  const USERS := "users:"
  const POSTS := "posts:"
  const STATS := "stats:"

  function UsersKey(login: Option<string>, minAge: Option<int>): string {
    USERS + "login=" + Shown(login) + ":min_age=" + ShownInt(minAge)
  }

  function PostsKey(author: Option<string>, tag: Option<string>): string {
    POSTS + "author_id=" + Shown(author) + ":tag=" + Shown(tag)
  }

  const STATS_KEY := STATS + "posts-by-users"

  predicate HasPrefix(key: string, prefix: string) { |prefix| <= |key| && key[..|prefix|] == prefix }

  lemma PrefixOf(prefix: string, rest: string)
    ensures HasPrefix(prefix + rest, prefix)
  {
  }

  lemma KeyPrefixes(login: Option<string>, minAge: Option<int>, author: Option<string>, tag: Option<string>)
    ensures HasPrefix(UsersKey(login, minAge), USERS)
    ensures HasPrefix(PostsKey(author, tag), POSTS)
    ensures HasPrefix(STATS_KEY, STATS)
  {
    hide Shown, ShownInt;
    var u := "login=" + Shown(login) + ":min_age=" + ShownInt(minAge);
    assert UsersKey(login, minAge) == USERS + u;
    PrefixOf(USERS, u);
    var p := "author_id=" + Shown(author) + ":tag=" + Shown(tag);
    assert PostsKey(author, tag) == POSTS + p;
    PrefixOf(POSTS, p);
    PrefixOf(STATS, "posts-by-users");
  }

  /** The three families of keys do not meet. */
  lemma FamiliesApart(key: string)
    ensures !(HasPrefix(key, USERS) && HasPrefix(key, POSTS))
    ensures !(HasPrefix(key, USERS) && HasPrefix(key, STATS))
    ensures !(HasPrefix(key, POSTS) && HasPrefix(key, STATS))
  {
    assert USERS[0] == 'u' && POSTS[0] == 'p' && STATS[0] == 's';
    if HasPrefix(key, USERS) { assert key[0] == key[..|USERS|][0]; }
    if HasPrefix(key, POSTS) { assert key[0] == key[..|POSTS|][0]; }
    if HasPrefix(key, STATS) { assert key[0] == key[..|STATS|][0]; }
  }

  // ---- numbers ------------------------------------------------------------

  function NatOf(s: string): int {
    if s == [] then 0 else NatOf(s[..|s| - 1]) * 10 + (s[|s| - 1] as int - '0' as int)
  }

  lemma {:induction false} DigitsMean(n: nat)
    ensures NatOf(Digits(n)) == n
    ensures Digits(n) != [] && forall i :: 0 <= i < |Digits(n)| ==> '0' <= Digits(n)[i] <= '9'
  {
    if n < 10 {
      assert NatOf([]) == 0;
      assert [Digit(n)][..0] == [];
    } else {
      DigitsMean(n / 10);
      assert Digits(n)[..|Digits(n)| - 1] == Digits(n / 10);
    }
  }

  lemma ShownIntInjective(a: Option<int>, b: Option<int>)
    requires ShownInt(a) == ShownInt(b)
    ensures a == b
  {
    FirstChar(a);
    FirstChar(b);
    if a.Some? && b.Some? {
      Magnitude(a.value);
      Magnitude(b.value);
    }
  }

  /** The first character tells absence, sign and plain numbers apart. */
  lemma FirstChar(a: Option<int>)
    ensures ShownInt(a) != []
    ensures a.None? <==> ShownInt(a)[0] == 'N'
    ensures a.Some? && a.value < 0 <==> ShownInt(a)[0] == '-'
    ensures ':' !in ShownInt(a)
  {
    if a.Some? { DigitsMean(if a.value < 0 then -a.value else a.value); }
  }

  lemma Magnitude(n: int)
    ensures NatOf(if n < 0 then Decimal(n)[1..] else Decimal(n)) == if n < 0 then -n else n
  {
    DigitsMean(if n < 0 then -n else n);
    if n < 0 { assert Decimal(n)[1..] == Digits(-n); }
  }

  // ---- keys ---------------------------------------------------------------

  /** The part after the last colon decides where the part before it ends. */
  lemma SplitAtLast(p: string, a: string, m: string, n: string, b: string, k: string)
    requires p + a + m + n == p + b + m + k
    requires m != [] && m[0] == ':' && ':' !in m[1..] && ':' !in n && ':' !in k
    ensures a == b && n == k
  {
    var s := p + a + m + n;
    LastColon(p + a, m, n);
    LastColon(p + b, m, k);
    assert |a| == |b|;
    assert s[|p|..|p| + |a|] == a && s[|p|..|p| + |b|] == b;
    assert s[|p| + |a| + |m|..] == n && s[|p| + |b| + |m|..] == k;
  }

  lemma LastColon(pre: string, m: string, n: string)
    requires m != [] && m[0] == ':' && ':' !in m[1..] && ':' !in n
    ensures var s := pre + m + n;
            s[|pre|] == ':' && forall i :: |pre| < i < |s| ==> s[i] != ':'
  {
    var s := pre + m + n;
    forall i | |pre| < i < |s| ensures s[i] != ':' {
      if i < |pre| + |m| { assert s[i] == m[1..][i - |pre| - 1]; } else { assert s[i] == n[i - |pre| - |m|]; }
    }
  }

  /** The first colon ends the part before it. */
  lemma SplitAtFirst(p: string, a: string, m: string, n: string, b: string, k: string)
    requires p + a + m + n == p + b + m + k
    requires m != [] && m[0] == ':' && ':' !in a && ':' !in b
    ensures a == b && n == k
  {
    var s := p + a + m + n;
    assert s[|p| + |a|] == ':' && s[|p| + |b|] == ':';
    assert forall i :: 0 <= i < |a| ==> s[|p| + i] == a[i];
    assert forall i :: 0 <= i < |b| ==> s[|p| + i] == b[i];
    assert |a| == |b|;
    assert s[|p|..|p| + |a|] == a && s[|p|..|p| + |b|] == b;
    assert s[|p| + |a| + |m|..] == n && s[|p| + |b| + |m|..] == k;
  }

  /** Two user requests share a key only if they are the same, "None" and absence apart. */
  lemma UsersKeyInjective(l1: Option<string>, a1: Option<int>, l2: Option<string>, a2: Option<int>)
    requires UsersKey(l1, a1) == UsersKey(l2, a2)
    ensures Shown(l1) == Shown(l2) && a1 == a2
  {
    FirstChar(a1);
    FirstChar(a2);
    SplitAtLast(USERS + "login=", Shown(l1), ":min_age=", ShownInt(a1), Shown(l2), ShownInt(a2));
    ShownIntInjective(a1, a2);
  }

  /** The same for post requests whose author holds no colon. */
  lemma PostsKeyInjective(a1: Option<string>, t1: Option<string>, a2: Option<string>, t2: Option<string>)
    requires PostsKey(a1, t1) == PostsKey(a2, t2)
    requires ':' !in Shown(a1) && ':' !in Shown(a2)
    ensures Shown(a1) == Shown(a2) && Shown(t1) == Shown(t2)
  {
    SplitAtFirst(POSTS + "author_id=", Shown(a1), ":tag=", Shown(t1), Shown(a2), Shown(t2));
  }

  /** An author that is no id can borrow the key of another request. */
  lemma BorrowedKey(author: string, tag: string, more: string)
    ensures PostsKey(Some(author + ":tag=" + more), Some(tag)) == PostsKey(Some(author), Some(more + ":tag=" + tag))
  {
  }
}
